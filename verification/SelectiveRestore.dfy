/** Restoring chosen parts of a backup into the database: copied tables, settings
    that name rows, links across parts, and id counters. */
module SelectiveRestore {
  import opened Options
  import opened RuleOrder
  import opened BackupTables

  datatype Parts = Parts(profiles: bool, routes: bool, settings: bool, otp: bool, ipLists: bool)

  datatype Counters = Counters(profile: int, group: int, route: int, otp: int, list: int, scan: int)

  // Old backups may lack the later counters, or all of them.
  datatype BackupIds = BackupIds(profile: int, group: int, route: int, otp: Option<int>, list: Option<int>, scan: Option<int>)

  type Tables = map<TableName, Table>
  datatype Backup = Backup(tables: Tables, ids: Option<BackupIds>)

  const NO_PROFILE: int := -1919

  // The parts of a backup, numbered, and their tables in copying order.
  function TablesOf(part: nat): seq<TableName> {
    match part
    case 0 => [Profiles, GroupsOrder, Groups]
    case 1 => [RouteRules, RouteProfiles]
    case 2 => [SettingsRows, Markers]
    case 3 => [OtpProfiles]
    case _ => [IpListEntries, IpScans, IpLists]
  }

  function PartOf(name: TableName): nat {
    match name
    case Profiles | GroupsOrder | Groups => 0
    case RouteRules | RouteProfiles => 1
    case SettingsRows | Markers => 2
    case OtpProfiles => 3
    case IpListEntries | IpScans | IpLists => 4
  }

  lemma TablesOfPart(part: nat)
    requires part < 5
    ensures forall n :: n in TablesOf(part) <==> PartOf(n) == part
    ensures forall i, j :: 0 <= i < j < |TablesOf(part)| ==> TablesOf(part)[i] != TablesOf(part)[j]
  {
  }

  predicate Chosen(parts: Parts, part: nat) {
    match part
    case 0 => parts.profiles
    case 1 => parts.routes
    case 2 => parts.settings
    case 3 => parts.otp
    case _ => parts.ipLists
  }

  predicate Selected(parts: Parts, name: TableName) { Chosen(parts, PartOf(name)) }

  predicate IdTableName(name: TableName) {
    name.Profiles? || name.Groups? || name.RouteProfiles? || name.OtpProfiles? || name.IpLists? || name.IpScans?
  }

  ghost predicate WellTyped(t: Tables) {
    forall n :: n in t ==>
      t[n].Ok() && (IdTableName(n) ==> IdTable(t[n])) && (n == SettingsRows ==> SettingsTable(t[n]))
  }

  /** The schema the application creates; settings may still be missing. */
  ghost predicate MainOk(t: Tables) {
    WellTyped(t) && HasIdTables(t) && GroupsOrder in t
  }

  predicate HasIdTables(t: Tables) {
    Profiles in t && Groups in t && RouteProfiles in t && OtpProfiles in t && IpLists in t && IpScans in t
  }

  // Only the settings table keeps rows of its own.
  function KeepFor(name: TableName, keep: set<string>): set<string> {
    if name == SettingsRows then keep else {}
  }

  function Replaced(t: Tables, bak: Tables, keep: set<string>, name: TableName): Table
    requires name in t && name in bak
  {
    Copied(t[name], bak[name], name, KeepFor(name, keep))
  }

  ghost function AfterCopy(t: Tables, bak: Tables, parts: Parts, keep: set<string>, name: TableName): Table
    requires name in t
  {
    if Selected(parts, name) && name in bak then Replaced(t, bak, keep, name)
    else if parts.settings && name == Markers then t[name].(rows := [])
    else t[name]
  }

  lemma AfterCopyOk(t: Tables, bak: Tables, parts: Parts, keep: set<string>, name: TableName)
    requires WellTyped(t) && WellTyped(bak) && name in t
    ensures var a := AfterCopy(t, bak, parts, keep, name);
      a.Ok() && (IdTableName(name) ==> IdTable(a)) && (name == SettingsRows ==> SettingsTable(a))
  {
    hide Copied, Selected;
    if name in bak {
      CopiedOk(t[name], bak[name], name, KeepFor(name, keep));
      if IdTableName(name) { CopiedIds(t[name], bak[name], name); }
      if name == SettingsRows { CopiedSettings(t[name], bak[name], keep, ""); }
    }
  }

  function RowsSkipped(t: Tables, bak: Tables, name: TableName): nat {
    if name in t && name in bak && !(t[name].columns !! bak[name].columns) then SkippedRows(t[name], bak[name], name) else 0
  }

  // -------------------------------------------------------------------
  // Queries
  // -------------------------------------------------------------------

  method IdExists(t: Table, id: int) returns (yes: bool)
    ensures yes == HasId(t, id)
  {
    for i := 0 to |t.rows|
      invariant forall k :: 0 <= k < i ==> IntOf(t.rows[k], "id") != id
    {
      if IntOf(t.rows[i], "id") == id {
        return true;
      }
    }
    yes := false;
  }

  /** SELECT MIN(id) */
  method MinId(t: Table) returns (r: Option<int>)
    ensures r.None? <==> t.rows == []
    ensures r.Some? ==> Lowest(t, r)
  {
    r := None;
    for i := 0 to |t.rows|
      invariant r.None? <==> i == 0
      invariant r.Some? ==> exists k :: 0 <= k < i && IntOf(t.rows[k], "id") == r.value
      invariant r.Some? ==> forall k :: 0 <= k < i ==> r.value <= IntOf(t.rows[k], "id")
    {
      var id := IntOf(t.rows[i], "id");
      if r.None? || id < r.value {
        r := Some(id);
      }
    }
  }

  /** SELECT COALESCE(MAX(id),0) */
  method MaxId(t: Table) returns (m: int)
    ensures forall id :: HasId(t, id) ==> id <= m
    ensures m == 0 || HasId(t, m)
  {
    m := 0;
    for i := 0 to |t.rows|
      invariant i == 0 ==> m == 0
      invariant i > 0 ==> exists k :: 0 <= k < i && IntOf(t.rows[k], "id") == m
      invariant i > 0 ==> forall k :: 0 <= k < i ==> IntOf(t.rows[k], "id") <= m
    {
      var id := IntOf(t.rows[i], "id");
      if i == 0 || id > m {
        m := id;
      }
    }
  }

  // A row of the display order that names an existing group.
  ghost predicate Shown(order: Table, groups: Table, k: nat) {
    k < |order.rows| && HasId(groups, IntOf(order.rows[k], "group_id"))
  }

  ghost predicate ShownFirst(order: Table, groups: Table, id: int) {
    exists k: nat :: Shown(order, groups, k) && IntOf(order.rows[k], "group_id") == id && NoneBefore(order, groups, k)
  }

  ghost predicate NoneBefore(order: Table, groups: Table, k: nat)
    requires k < |order.rows|
  {
    forall j: nat :: Shown(order, groups, j) ==>
      var a, b := IntOf(order.rows[k], "display_order"), IntOf(order.rows[j], "display_order");
      a < b || (a == b && k <= j)
  }

  /** The first existing group in display order, ties in row order. */
  method FirstShown(order: Table, groups: Table) returns (r: Option<int>)
    ensures r.None? ==> forall k: nat :: !Shown(order, groups, k)
    ensures r.Some? ==> HasId(groups, r.value) && ShownFirst(order, groups, r.value) && groups.rows != []
  {
    hide HasId;
    r := None;
    ghost var best: nat := 0;
    var bestOrder := 0;
    for i := 0 to |order.rows|
      invariant r.None? ==> forall k: nat :: k < i ==> !Shown(order, groups, k)
      invariant r.Some? ==> best < i && Shown(order, groups, best) && IntOf(order.rows[best], "group_id") == r.value
      invariant r.Some? ==> bestOrder == IntOf(order.rows[best], "display_order")
      invariant r.Some? ==> forall j: nat :: j < i && Shown(order, groups, j) ==>
        bestOrder < IntOf(order.rows[j], "display_order") || (bestOrder == IntOf(order.rows[j], "display_order") && best <= j)
    {
      var id, place := IntOf(order.rows[i], "group_id"), IntOf(order.rows[i], "display_order");
      var exists_ := IdExists(groups, id);
      if exists_ && (r.None? || place < bestOrder) {
        r := Some(id);
        bestOrder := place;
        best := i;
      }
    }
    assert r.Some? ==> NoneBefore(order, groups, best);
    if r.Some? { SomeRow(groups, r.value); }
  }

  lemma SomeRow(t: Table, id: int)
    requires HasId(t, id)
    ensures t.rows != []
  {
  }

  // -------------------------------------------------------------------
  // The database
  // -------------------------------------------------------------------

  /** How ids are spelled in setting values. */
  datatype Spelling = Spelling(toInt: string -> int, show: int -> string) {
    ghost predicate Ok() { forall i :: toInt(show(i)) == i }
  }

  function IdIn(sp: Spelling, c: Cell): int {
    match c
    case Int(i) => i
    case Text(s) => sp.toInt(s)
    case Null => sp.toInt("")
  }

  function IdOf(sp: Spelling, c: Option<Cell>): Option<int> {
    if c.Some? then Some(IdIn(sp, c.value)) else None
  }

  function SettingOf(t: Tables, key: string): Option<Cell> {
    if SettingsRows in t then Lookup(t[SettingsRows].rows, key) else None
  }

  function SettingId(sp: Spelling, t: Tables, key: string): Option<int> { IdOf(sp, SettingOf(t, key)) }

  // The value an id is stored as.
  function Spelled(sp: Spelling, id: int): Option<Cell> { Some(Text(sp.show(id))) }

  lemma SpelledId(sp: Spelling, id: int)
    requires sp.Ok()
    ensures Spelled(sp, id).Some? && IdIn(sp, Spelled(sp, id).value) == id
  {
  }

  function WithSetting(sp: Spelling, t: Table, key: string, id: int): Table {
    var row := map c | c in t.columns ::
      if c == "key" then Text(key) else if c == "value" then Text(sp.show(id))
      else if c in t.defaults then t.defaults[c] else Null;
    t.(rows := Dropping(t.rows, {key}) + [row])
  }

  lemma WithSettingLookup(sp: Spelling, t: Table, key: string, id: int)
    requires SettingsTable(t)
    ensures SettingsTable(WithSetting(sp, t, key, id))
    ensures Lookup(WithSetting(sp, t, key, id).rows, key) == Spelled(sp, id)
    ensures forall other :: other != key ==> Lookup(WithSetting(sp, t, key, id).rows, other) == Lookup(t.rows, other)
  {
    hide Dropping, Lookup, SettingRow;
    var after := WithSetting(sp, t, key, id);
    var init := Dropping(t.rows, {key});
    var row := after.rows[|init|];
    assert after.rows == init + [row];
    DroppingRows(t.rows, {key});
    SubRows(init, t.rows);
    NewRow(row, key, Text(sp.show(id)));
    forall k: string ensures Lookup(after.rows, k) == if k == key then Some(Text(sp.show(id))) else Lookup(t.rows, k) {
      LookupDropping(t.rows, {key}, k);
      LookupAppend(init, [row], k);
      LookupOne(row, k);
    }
    SubOk(init, t.rows, t.columns);
  }

  lemma NewRow(row: Row, key: string, value: Cell)
    requires "key" in row && "value" in row && row["key"] == Text(key) && row["value"] == value
    ensures SettingRow(row) && KeyOf(row) == key
  {
  }

  lemma SubOk(part: seq<Row>, rows: seq<Row>, columns: set<string>)
    requires (forall i :: 0 <= i < |rows| ==> rows[i].Keys == columns) && forall row :: row in part ==> row in rows
    ensures forall i :: 0 <= i < |part| ==> part[i].Keys == columns
  {
    forall i | 0 <= i < |part| ensures part[i].Keys == columns {
      assert part[i] in part;
      var k :| 0 <= k < |rows| && rows[k] == part[i];
    }
  }

  // -------------------------------------------------------------------
  // What restoring leaves behind
  // -------------------------------------------------------------------

  // No remembered profile, or one that exists.
  ghost predicate RememberedOk(sp: Spelling, t: Tables)
    requires Profiles in t
  {
    var id := SettingId(sp, t, "remember_id");
    id.Some? ==> id.value < 0 || HasId(t[Profiles], id.value)
  }

  // While the table has rows, the setting names one of them.
  ghost predicate Names(sp: Spelling, t: Tables, key: string, name: TableName)
    requires name in t
  {
    SettingsRows in t && t[name].rows != [] ==>
      SettingId(sp, t, key).Some? && HasId(t[name], SettingId(sp, t, key).value)
  }

  predicate IdKey(key: string) {
    key == "remember_id" || key == "current_group" || key == "current_route_id"
  }

  function WithColumn(t: Table, column: string, c: Cell): Table {
    t.(rows := seq(|t.rows|, i requires 0 <= i < |t.rows| => t.rows[i][column := c]))
  }

  lemma WithColumnOk(t: Table, column: string, c: Cell)
    requires t.Ok() && column in t.columns
    ensures WithColumn(t, column, c).Ok()
    ensures column != "id" && IdTable(t) ==> IdTable(WithColumn(t, column, c))
    ensures column != "id" ==> forall id :: HasId(WithColumn(t, column, c), id) <==> HasId(t, id)
  {
    var after := WithColumn(t, column, c);
    if column != "id" {
      forall i | 0 <= i < |t.rows| ensures IntOf(after.rows[i], "id") == IntOf(t.rows[i], "id") { }
    }
  }

  // Every link in the column is cut.
  ghost predicate Unlinked(t: Table, column: string) {
    column in t.columns ==> forall i :: 0 <= i < |t.rows| ==> column in t.rows[i] && t.rows[i][column] == Int(-1)
  }

  class Database {
    var tables: Tables
    var counters: Counters
    const sp: Spelling

    ghost predicate Valid()
      reads this
    {
      MainOk(tables) && sp.Ok()
    }

    constructor (tables: Tables, counters: Counters, sp: Spelling)
      requires MainOk(tables) && sp.Ok()
      ensures Valid() && this.tables == tables && this.counters == counters && this.sp == sp
    {
      this.tables := tables;
      this.counters := counters;
      this.sp := sp;
    }

    method CopyTable(bak: Tables, name: TableName, keep: set<string>) returns (skipped: nat)
      modifies this`tables
      ensures name in old(tables) && name in bak ==> tables == old(tables)[name := Copied(old(tables)[name], bak[name], name, keep)]
      ensures !(name in old(tables) && name in bak) ==> tables == old(tables)
      ensures skipped == RowsSkipped(old(tables), bak, name)
    {
      hide Copied, SkippedRows;
      if name !in tables || name !in bak {
        return 0;
      }
      var after;
      after, skipped := CopyRows(tables[name], bak[name], name, keep);
      tables := tables[name := after];
    }

    method CopyList(bak: Tables, names: seq<TableName>, keep: set<string>) returns (skipped: nat)
      requires forall i, j :: 0 <= i < j < |names| ==> names[i] != names[j]
      modifies this`tables
      ensures tables.Keys == old(tables).Keys
      ensures forall n :: n in tables ==>
        tables[n] == if n in names && n in bak then Replaced(old(tables), bak, keep, n) else old(tables)[n]
      ensures skipped == TotalSkipped(old(tables), bak, names)
    {
      hide Copied, SkippedRows;
      skipped := 0;
      for i := 0 to |names|
        invariant tables.Keys == old(tables).Keys
        invariant forall n :: n in tables ==>
          tables[n] == if n in names[..i] && n in bak then Replaced(old(tables), bak, keep, n) else old(tables)[n]
        invariant skipped == TotalSkipped(old(tables), bak, names[..i])
      {
        assert names[i] !in names[..i];
        assert names[..i + 1] == names[..i] + [names[i]] && names[..i + 1][..i] == names[..i];
        var n := CopyTable(bak, names[i], KeepFor(names[i], keep));
        skipped := skipped + n;
      }
      assert names[..|names|] == names;
    }

    method CopyIf(parts: Parts, part: nat, bak: Tables, keep: set<string>, ghost t: Tables) returns (skipped: nat)
      requires part < 5 && Done(t, tables, bak, keep, parts, part)
      modifies this`tables
      ensures Done(t, tables, bak, keep, parts, part + 1)
      ensures skipped == if Chosen(parts, part) then TotalSkipped(t, bak, TablesOf(part)) else 0
    {
      hide Replaced, RowsSkipped, TablesOf, PartOf, Chosen;
      TablesOfPart(part);
      skipped := 0;
      if Chosen(parts, part) {
        SameSkips(tables, t, bak, TablesOf(part));
        skipped := CopyList(bak, TablesOf(part), keep);
        forall n | n in tables && PartOf(n) == part && n in bak ensures Replaced(old(tables), bak, keep, n) == Replaced(t, bak, keep, n) {
          SameSource(old(tables), t, bak, keep, n);
        }
      }
    }

    method CopyChosen(bak: Tables, parts: Parts, keep: set<string>) returns (skippedRules: nat)
      modifies this`tables
      ensures Done(old(tables), tables, bak, keep, parts, 5)
      ensures skippedRules == if parts.routes then TotalSkipped(old(tables), bak, TablesOf(1)) else 0
    {
      hide TotalSkipped, TablesOf, Done;
      ghost var t := tables;
      NothingDone(t, bak, keep, parts);
      var ignored := CopyIf(parts, 0, bak, keep, t);
      skippedRules := CopyIf(parts, 1, bak, keep, t);
      ignored := CopyIf(parts, 2, bak, keep, t);
      ignored := CopyIf(parts, 3, bak, keep, t);
      ignored := CopyIf(parts, 4, bak, keep, t);
    }

    /** Copies the chosen parts; settings without their markers count as unmigrated. */
    method CopyParts(bak: Tables, parts: Parts, keep: set<string>) returns (skippedRules: nat)
      requires Valid() && WellTyped(bak)
      modifies this`tables
      ensures Valid() && tables.Keys == old(tables).Keys
      ensures forall n :: n in tables ==> tables[n] == AfterCopy(old(tables), bak, parts, keep, n)
      ensures skippedRules == if parts.routes then TotalSkipped(old(tables), bak, TablesOf(1)) else 0
    {
      hide Replaced, TotalSkipped, TablesOf, MainOk, WellTyped, Done, Selected, PartOf;
      ghost var t := tables;
      skippedRules := CopyChosen(bak, parts, keep);
      AllDone(t, tables, bak, keep, parts);
      MarkersIn(parts);
      if parts.settings && Markers !in bak && Markers in tables {
        tables := tables[Markers := tables[Markers].(rows := [])];
      }
      StillMain(t, bak, parts, keep, tables);
    }

    method SetSettingId(key: string, id: int)
      requires Valid() && SettingsRows in tables
      modifies this`tables
      ensures Valid() && OnlySetting(old(tables), tables, key) && SettingOf(tables, key) == Spelled(sp, id)
    {
      hide WithSetting, Lookup, SettingRows, IdTable;
      WithSettingLookup(sp, tables[SettingsRows], key, id);
      tables := tables[SettingsRows := WithSetting(sp, tables[SettingsRows], key, id)];
    }

    /** A remembered profile that came from elsewhere, or is gone, is forgotten. */
    method ResolveRemembered(stale: bool)
      requires Valid() && SettingsRows in tables
      modifies this`tables
      ensures Valid() && OnlySetting(old(tables), tables, "remember_id")
      ensures RememberedSet(sp, tables[Profiles], stale, old(SettingOf(tables, "remember_id")), SettingOf(tables, "remember_id"))
    {
      hide WellTyped, HasId, Lookup;
      var id := SettingId(sp, tables, "remember_id");
      if id.Some? && id.value >= 0 {
        var found := IdExists(tables[Profiles], id.value);
        if stale || !found {
          SetSettingId("remember_id", NO_PROFILE);
        }
      }
    }

    /** The current group becomes the first shown one, or the lowest, unless it
        is good as it is. */
    method ResolveGroup(stale: bool)
      requires Valid() && SettingsRows in tables
      modifies this`tables
      ensures Valid() && OnlySetting(old(tables), tables, "current_group")
      ensures GroupSet(sp, tables[GroupsOrder], tables[Groups], stale,
                       old(SettingOf(tables, "current_group")), SettingOf(tables, "current_group"))
    {
      hide WellTyped, HasId, Default, SettingOf, IdIn, Spelled;
      var current := SettingId(sp, tables, "current_group");
      var found := false;
      if current.Some? {
        found := IdExists(tables[Groups], current.value);
      }
      if current.None? || stale || !found {
        var first := FirstGroup(tables[GroupsOrder], tables[Groups]);
        DefaultUnique(tables[GroupsOrder], tables[Groups], first, current);
        if first.Some? && first != current {
          SetSettingId("current_group", first.value);
          SpelledId(sp, first.value);
        }
      }
    }

    /** The current route profile becomes the lowest one, unless it is good. */
    method ResolveRoute(stale: bool)
      requires Valid() && SettingsRows in tables
      modifies this`tables
      ensures Valid() && OnlySetting(old(tables), tables, "current_route_id")
      ensures RouteSet(sp, tables[RouteProfiles], stale,
                       old(SettingOf(tables, "current_route_id")), SettingOf(tables, "current_route_id"))
    {
      hide WellTyped, HasId, SettingOf, IdIn, Spelled, Lowest;
      var current := SettingId(sp, tables, "current_route_id");
      var found := false;
      if current.Some? {
        found := IdExists(tables[RouteProfiles], current.value);
      }
      if current.None? || stale || !found {
        var lowest := MinId(tables[RouteProfiles]);
        LowestUnique(tables[RouteProfiles], lowest, current);
        if lowest.Some? && lowest != current {
          SetSettingId("current_route_id", lowest.value);
          SpelledId(sp, lowest.value);
        }
      }
    }

    // The three settings that name rows.
    method ResolveSettings(profileStale: bool, groupStale: bool, routeStale: bool)
      requires Valid() && SettingsRows in tables
      modifies this`tables
      ensures Valid() && OnlyIdSettings(old(tables), tables)
      ensures Resolved(sp, old(tables), tables, profileStale, groupStale, routeStale)
    {
      hide WellTyped, RememberedSet, GroupSet, RouteSet, OnlySetting, OnlyIdSettings, Resolved;
      ghost var t0 := tables;
      ResolveRemembered(profileStale);
      ghost var t1 := tables;
      OnlySettingKeys(t0, t1, "remember_id");
      ResolveGroup(groupStale);
      ghost var t2 := tables;
      OnlySettingKeys(t1, t2, "current_group");
      ResolveRoute(routeStale);
      OnlySettingKeys(t2, tables, "current_route_id");
      OneAfterAnother(sp, t0, t1, t2, tables, profileStale, groupStale, routeStale);
    }

    /** Cuts the links between groups and route profiles. */
    method UnlinkParts()
      requires Valid()
      modifies this`tables
      ensures Valid() && tables.Keys == old(tables).Keys
      ensures forall n :: n in tables && n != Groups && n != RouteProfiles ==> tables[n] == old(tables)[n]
      ensures Unlinked(tables[Groups], "route_id") && Unlinked(tables[RouteProfiles], "source_gid")
      ensures SameIds(old(tables)[Groups], tables[Groups]) && SameIds(old(tables)[RouteProfiles], tables[RouteProfiles])
    {
      hide HasId, WithColumn, MainOk, WellTyped, Unlinked;
      IdTablesOk(tables);
      if "route_id" in tables[Groups].columns {
        Cut(tables[Groups], "route_id");
        TableReplaced(tables, Groups, WithColumn(tables[Groups], "route_id", Int(-1)));
        tables := tables[Groups := WithColumn(tables[Groups], "route_id", Int(-1))];
      } else {
        NoLinks(tables[Groups], "route_id");
      }
      ghost var mid := tables;
      if "source_gid" in tables[RouteProfiles].columns {
        Cut(tables[RouteProfiles], "source_gid");
        TableReplaced(tables, RouteProfiles, WithColumn(tables[RouteProfiles], "source_gid", Int(-1)));
        tables := tables[RouteProfiles := WithColumn(tables[RouteProfiles], "source_gid", Int(-1))];
      } else {
        NoLinks(tables[RouteProfiles], "source_gid");
      }
    }

    method RaiseProfileCounters(ids: Option<BackupIds>)
      requires HasIdTables(tables)
      modifies this`counters
      ensures RaisedProfiles(old(counters), counters, tables, ids)
      ensures counters.otp == old(counters.otp) && counters.list == old(counters.list) && counters.scan == old(counters.scan)
    {
      hide HasId;
      var p := MaxId(tables[Profiles]);
      var g := MaxId(tables[Groups]);
      var r := MaxId(tables[RouteProfiles]);
      counters := counters.(
        profile := Max3(counters.profile, p, if ids.Some? then ids.value.profile else counters.profile),
        group := Max3(counters.group, g, if ids.Some? then ids.value.group else counters.group),
        route := Max3(counters.route, r, if ids.Some? then ids.value.route else counters.route));
    }

    /** Keeps the id counters ahead of the restored rows. */
    method RaiseCounters(parts: Parts, ids: Option<BackupIds>)
      requires HasIdTables(tables)
      modifies this`counters
      ensures Raised(old(counters), counters, parts, tables, ids)
    {
      hide HasId, RaisedProfiles;
      if parts.profiles || parts.routes {
        RaiseProfileCounters(ids);
      }
      if parts.otp {
        var o := MaxId(tables[OtpProfiles]);
        counters := counters.(otp := Max3(counters.otp, o, if ids.Some? && ids.value.otp.Some? then ids.value.otp.value else counters.otp));
        assert Covers(old(counters.otp), counters.otp, tables[OtpProfiles], if ids.Some? then ids.value.otp else None);
      }
      if parts.ipLists {
        var l := MaxId(tables[IpLists]);
        var c := MaxId(tables[IpScans]);
        counters := counters.(
          list := Max3(counters.list, l, if ids.Some? && ids.value.list.Some? then ids.value.list.value else counters.list),
          scan := Max3(counters.scan, c, if ids.Some? && ids.value.scan.Some? then ids.value.scan.value else counters.scan));
      }
      RaisedFrame(old(counters), counters, tables, ids);
    }

    /** Restores the chosen parts, for every choice of parts and whatever tables
        the backup has. */
    method RestoreSelective(bak: Backup, parts: Parts, preserved: set<string>) returns (skippedRules: nat)
      requires Valid() && WellTyped(bak.tables)
      modifies this`tables, this`counters
      ensures Valid() && tables.Keys == old(tables).Keys
      ensures !AnyDb(parts) ==> tables == old(tables) && counters == old(counters) && skippedRules == 0
      ensures AnyDb(parts) ==> Restored(sp, old(tables), tables, bak.tables, parts, preserved)
      ensures AnyDb(parts) ==> Raised(old(counters), counters, parts, tables, bak.ids)
      ensures AnyDb(parts) ==> skippedRules == if parts.routes then TotalSkipped(old(tables), bak.tables, TablesOf(1)) else 0
    {
      hide WellTyped, AfterCopy, TotalSkipped, Resolved, Raised, OnlyIdSettings, Unlinked, SameIds, Restored;
      if !AnyDb(parts) {
        return 0;
      }
      ghost var t0 := tables;
      var profilesReplaced := Replaces(parts.profiles, tables, bak.tables, Profiles);
      var groupsReplaced := Replaces(parts.profiles, tables, bak.tables, Groups);
      var routesReplaced := Replaces(parts.routes, tables, bak.tables, RouteProfiles);
      var settingsReplaced := Replaces(parts.settings, tables, bak.tables, SettingsRows);
      var keep := preserved;
      if !profilesReplaced {
        keep := keep + {"remember_id"};
      }
      if !groupsReplaced {
        keep := keep + {"current_group"};
      }
      if !routesReplaced {
        keep := keep + {"current_route_id"};
      }
      assert keep == KeepKeys(t0, bak.tables, parts, preserved);
      skippedRules := CopyParts(bak.tables, parts, keep);
      ghost var t1 := tables;
      var hasSettings := SettingsRows in tables;
      if hasSettings {
        ResolveSettings(profilesReplaced && (!settingsReplaced || "remember_id" in keep),
                        groupsReplaced && (!settingsReplaced || "current_group" in keep),
                        routesReplaced && (!settingsReplaced || "current_route_id" in keep));
        OnlyIdKeys(t1, tables);
      }
      ghost var t2 := tables;
      if groupsReplaced != routesReplaced {
        UnlinkParts();
      }
      RaiseCounters(parts, bak.ids);
      RestoredAll(sp, t0, t1, t2, tables, bak.tables, parts, preserved);
    }
  }

  predicate AnyDb(parts: Parts) {
    parts.profiles || parts.routes || parts.settings || parts.otp || parts.ipLists
  }

  // A table is left alone when either side lacks it.
  predicate Replaces(part: bool, t: Tables, bak: Tables, name: TableName) {
    part && name in t && name in bak
  }

  // A setting whose table stays this host's keeps this host's value.
  function KeepKeys(t: Tables, bak: Tables, parts: Parts, preserved: set<string>): set<string> {
    preserved
    + (if Replaces(parts.profiles, t, bak, Profiles) then {} else {"remember_id"})
    + (if Replaces(parts.profiles, t, bak, Groups) then {} else {"current_group"})
    + (if Replaces(parts.routes, t, bak, RouteProfiles) then {} else {"current_route_id"})
  }

  // The value a setting has once the tables are copied.
  function Incoming(t: Tables, bak: Tables, parts: Parts, preserved: set<string>, key: string): Option<Cell> {
    if Replaces(parts.settings, t, bak, SettingsRows) && key !in KeepKeys(t, bak, parts, preserved) then SettingOf(bak, key)
    else SettingOf(t, key)
  }

  ghost predicate Stale(t: Tables, bak: Tables, parts: Parts, preserved: set<string>, replaced: bool, key: string) {
    replaced && (!Replaces(parts.settings, t, bak, SettingsRows) || key in KeepKeys(t, bak, parts, preserved))
  }

  ghost predicate Restored(sp: Spelling, t: Tables, now: Tables, bak: Tables, parts: Parts, preserved: set<string>)
    requires MainOk(t) && MainOk(now) && now.Keys == t.Keys
  {
    && CopiedOrKept(t, now, bak, parts, preserved)
    && LinksCut(t, now, bak, parts, preserved)
    && (forall key :: !IdKey(key) ==> SettingOf(now, key) == Incoming(t, bak, parts, preserved, key))
    && (SettingsRows in t ==> IdsSet(sp, t, now, bak, parts, preserved))
    && RulesClosed(t, now, bak, parts)
  }

  // What the three settings that name rows are set to.
  ghost predicate IdsSet(sp: Spelling, t: Tables, now: Tables, bak: Tables, parts: Parts, preserved: set<string>)
    requires HasIdTables(now) && GroupsOrder in now
  {
    && RememberedSet(sp, now[Profiles], Stale(t, bak, parts, preserved, Replaces(parts.profiles, t, bak, Profiles), "remember_id"),
                     Incoming(t, bak, parts, preserved, "remember_id"), SettingOf(now, "remember_id"))
    && GroupSet(sp, now[GroupsOrder], now[Groups],
                Stale(t, bak, parts, preserved, Replaces(parts.profiles, t, bak, Groups), "current_group"),
                Incoming(t, bak, parts, preserved, "current_group"), SettingOf(now, "current_group"))
    && RouteSet(sp, now[RouteProfiles], Stale(t, bak, parts, preserved, Replaces(parts.routes, t, bak, RouteProfiles), "current_route_id"),
                Incoming(t, bak, parts, preserved, "current_route_id"), SettingOf(now, "current_route_id"))
  }

  // Once rules were skipped, the others are numbered without gaps.
  ghost predicate RulesClosed(t: Tables, now: Tables, bak: Tables, parts: Parts)
    requires now.Keys == t.Keys
  {
    Replaces(parts.routes, t, bak, RouteRules) && RulesGap(t[RouteRules], bak[RouteRules]) ==>
      Closed(RuleKeys(Surviving(bak[RouteRules].rows, bak[RouteRules].columns - t[RouteRules].columns)), RuleKeys(now[RouteRules].rows))
  }

  ghost predicate RulesGap(main: Table, bak: Table) {
    NumbersRules(main) && NumbersRules(bak) && SkippedRows(main, bak, RouteRules) > 0
  }

  ghost predicate IdsResolve(sp: Spelling, now: Tables)
    requires HasIdTables(now)
  {
    RememberedOk(sp, now) && Names(sp, now, "current_group", Groups) && Names(sp, now, "current_route_id", RouteProfiles)
  }

  // Tables are the backup's or untouched, but for settings and links.
  ghost predicate CopiedOrKept(t: Tables, now: Tables, bak: Tables, parts: Parts, preserved: set<string>)
    requires now.Keys == t.Keys
  {
    forall n :: n in t && n != SettingsRows && n != Groups && n != RouteProfiles ==>
      now[n] == AfterCopy(t, bak, parts, KeepKeys(t, bak, parts, preserved), n)
  }

  // Links between groups and routes survive only if both came from the same side.
  ghost predicate LinksCut(t: Tables, now: Tables, bak: Tables, parts: Parts, preserved: set<string>)
    requires HasIdTables(t) && HasIdTables(now)
  {
    var keep := KeepKeys(t, bak, parts, preserved);
    if Replaces(parts.profiles, t, bak, Groups) == Replaces(parts.routes, t, bak, RouteProfiles) then
      now[Groups] == AfterCopy(t, bak, parts, keep, Groups) && now[RouteProfiles] == AfterCopy(t, bak, parts, keep, RouteProfiles)
    else
      && Unlinked(now[Groups], "route_id") && Unlinked(now[RouteProfiles], "source_gid")
      && SameIds(AfterCopy(t, bak, parts, keep, Groups), now[Groups])
      && SameIds(AfterCopy(t, bak, parts, keep, RouteProfiles), now[RouteProfiles])
  }

  // An id that did not come with its replaced table is forgotten or set afresh.
  ghost predicate ForeignIdsReset(sp: Spelling, t: Tables, now: Tables, bak: Tables, parts: Parts, preserved: set<string>)
    requires HasIdTables(now) && GroupsOrder in now
  {
    && (Stale(t, bak, parts, preserved, Replaces(parts.profiles, t, bak, Profiles), "remember_id") ==>
          Forgotten(SettingId(sp, now, "remember_id")))
    && (Stale(t, bak, parts, preserved, Replaces(parts.profiles, t, bak, Groups), "current_group") ==>
          now[Groups].rows == [] || Default(now[GroupsOrder], now[Groups], SettingId(sp, now, "current_group")))
    && (Stale(t, bak, parts, preserved, Replaces(parts.routes, t, bak, RouteProfiles), "current_route_id") ==>
          now[RouteProfiles].rows == [] || Lowest(now[RouteProfiles], SettingId(sp, now, "current_route_id")))
  }

  predicate Forgotten(id: Option<int>) { id.Some? ==> id.value < 0 }

  // While its table stays, a setting that names a row of it does not change.
  ghost predicate HostIdsStay(sp: Spelling, t: Tables, now: Tables, bak: Tables, parts: Parts)
    requires HasIdTables(t)
  {
    && (!Replaces(parts.profiles, t, bak, Profiles) ==> KeptId(sp, t, now, "remember_id", Profiles))
    && (!Replaces(parts.profiles, t, bak, Groups) ==> KeptId(sp, t, now, "current_group", Groups))
    && (!Replaces(parts.routes, t, bak, RouteProfiles) ==> KeptId(sp, t, now, "current_route_id", RouteProfiles))
  }

  ghost predicate KeptId(sp: Spelling, t: Tables, now: Tables, key: string, name: TableName)
    requires name in t
  {
    var id := SettingId(sp, t, key);
    id.Some? && HasId(t[name], id.value) ==> SettingOf(now, key) == SettingOf(t, key)
  }

  lemma OnlyIdKeys(t: Tables, now: Tables)
    requires OnlyIdSettings(t, now)
    ensures now.Keys == t.Keys
  {
  }

  // The settings after the tables are copied.
  lemma SettingsAfterCopy(t: Tables, t1: Tables, bak: Tables, parts: Parts, preserved: set<string>, key: string)
    requires MainOk(t) && WellTyped(bak) && t1.Keys == t.Keys
    requires forall n :: n in t1 ==> t1[n] == AfterCopy(t, bak, parts, KeepKeys(t, bak, parts, preserved), n)
    ensures SettingOf(t1, key) == Incoming(t, bak, parts, preserved, key)
  {
    hide Copied, Lookup, KeepKeys;
    if Replaces(parts.settings, t, bak, SettingsRows) {
      CopiedSettings(t[SettingsRows], bak[SettingsRows], KeepKeys(t, bak, parts, preserved), key);
    }
  }

  // A part that is not replaced leaves its table as it was.
  lemma UnreplacedStays(t: Tables, bak: Tables, parts: Parts, keep: set<string>, n: TableName)
    requires n in t && n != Markers && !Replaces(Selected(parts, n), t, bak, n)
    ensures AfterCopy(t, bak, parts, keep, n) == t[n]
  {
  }

  lemma RestoredAll(sp: Spelling, t0: Tables, t1: Tables, t2: Tables, t3: Tables, bak: Tables, parts: Parts, preserved: set<string>)
    requires MainOk(t0) && MainOk(t3) && WellTyped(bak) && t1.Keys == t0.Keys && t2.Keys == t0.Keys && t3.Keys == t0.Keys
    requires forall n :: n in t1 ==> t1[n] == AfterCopy(t0, bak, parts, KeepKeys(t0, bak, parts, preserved), n)
    requires SettingsRows in t0 ==> OnlyIdSettings(t1, t2) && Resolved(sp, t1, t2,
      Stale(t0, bak, parts, preserved, Replaces(parts.profiles, t0, bak, Profiles), "remember_id"),
      Stale(t0, bak, parts, preserved, Replaces(parts.profiles, t0, bak, Groups), "current_group"),
      Stale(t0, bak, parts, preserved, Replaces(parts.routes, t0, bak, RouteProfiles), "current_route_id"))
    requires SettingsRows !in t0 ==> t2 == t1
    requires forall n :: n in t3 && n != Groups && n != RouteProfiles ==> t3[n] == t2[n]
    requires if Replaces(parts.profiles, t0, bak, Groups) == Replaces(parts.routes, t0, bak, RouteProfiles) then t3 == t2
      else Unlinked(t3[Groups], "route_id") && Unlinked(t3[RouteProfiles], "source_gid")
           && SameIds(t2[Groups], t3[Groups]) && SameIds(t2[RouteProfiles], t3[RouteProfiles])
    ensures Restored(sp, t0, t3, bak, parts, preserved)
  {
    hide AfterCopy, Resolved, Unlinked, SameIds, OnlyIdSettings, WellTyped, Incoming, KeepKeys, IdsSet, RulesClosed, IdKey, SettingOf;
    TablesAsResolved(t0, t1, t2);
    forall key | !IdKey(key) ensures SettingOf(t3, key) == Incoming(t0, bak, parts, preserved, key) {
      SettingsAfterCopy(t0, t1, bak, parts, preserved, key);
      SettingsUntouched(t1, t2, t3, key);
    }
    if SettingsRows in t0 {
      SettingsResolved(sp, t0, t1, t2, t3, bak, parts, preserved);
    }
    RulesAfterCopy(t0, t3, bak, parts, preserved);
  }

  lemma TablesAsResolved(t0: Tables, t1: Tables, t2: Tables)
    requires t1.Keys == t0.Keys && t2.Keys == t0.Keys
    requires SettingsRows in t0 ==> OnlyIdSettings(t1, t2)
    requires SettingsRows !in t0 ==> t2 == t1
    ensures forall n :: n in t2 && n != SettingsRows ==> t2[n] == t1[n]
  {
  }

  lemma SettingsUntouched(t1: Tables, t2: Tables, t3: Tables, key: string)
    requires t2.Keys == t1.Keys && t3.Keys == t1.Keys && !IdKey(key)
    requires SettingsRows in t1 ==> OnlyIdSettings(t1, t2) && t3[SettingsRows] == t2[SettingsRows]
    requires SettingsRows !in t1 ==> t2 == t1
    ensures SettingOf(t3, key) == SettingOf(t1, key)
  {
  }

  lemma SettingsResolved(sp: Spelling, t0: Tables, t1: Tables, t2: Tables, t3: Tables, bak: Tables, parts: Parts, preserved: set<string>)
    requires MainOk(t0) && MainOk(t3) && WellTyped(bak) && t1.Keys == t0.Keys && t2.Keys == t0.Keys && t3.Keys == t0.Keys
    requires SettingsRows in t0
    requires forall n :: n in t1 ==> t1[n] == AfterCopy(t0, bak, parts, KeepKeys(t0, bak, parts, preserved), n)
    requires OnlyIdSettings(t1, t2) && Resolved(sp, t1, t2,
      Stale(t0, bak, parts, preserved, Replaces(parts.profiles, t0, bak, Profiles), "remember_id"),
      Stale(t0, bak, parts, preserved, Replaces(parts.profiles, t0, bak, Groups), "current_group"),
      Stale(t0, bak, parts, preserved, Replaces(parts.routes, t0, bak, RouteProfiles), "current_route_id"))
    requires forall n :: n in t3 && n != Groups && n != RouteProfiles ==> t3[n] == t2[n]
    requires t3 == t2 || (SameIds(t2[Groups], t3[Groups]) && SameIds(t2[RouteProfiles], t3[RouteProfiles]))
    ensures IdsSet(sp, t0, t3, bak, parts, preserved)
  {
    hide AfterCopy, WellTyped, SettingOf, HasId, KeepKeys, Incoming, Replaces, Stale, RememberedSet, GroupSet, RouteSet, SameIds, IdKey;
    TablesAsResolved(t0, t1, t2);
    forall key ensures SettingOf(t1, key) == Incoming(t0, bak, parts, preserved, key) {
      SettingsAfterCopy(t0, t1, bak, parts, preserved, key);
    }
    forall key ensures SettingOf(t3, key) == SettingOf(t2, key) {
      SameRows(t2, t3, key);
    }
    GroupSetByIds(sp, t3[GroupsOrder], t2[Groups], t3[Groups]);
    RouteSetByIds(sp, t2[RouteProfiles], t3[RouteProfiles]);
  }

  lemma SameRows(t: Tables, now: Tables, key: string)
    requires SettingsRows in t && SettingsRows in now && now[SettingsRows] == t[SettingsRows]
    ensures SettingOf(now, key) == SettingOf(t, key)
  {
  }

  lemma RulesAfterCopy(t: Tables, now: Tables, bak: Tables, parts: Parts, preserved: set<string>)
    requires WellTyped(bak) && now.Keys == t.Keys && CopiedOrKept(t, now, bak, parts, preserved)
    ensures RulesClosed(t, now, bak, parts)
  {
    hide Copied, Surviving, RuleKeys, SkippedRows, Closed, KeepKeys, IdTable, SettingsTable, NumbersRules;
    if Replaces(parts.routes, t, bak, RouteRules) && RulesGap(t[RouteRules], bak[RouteRules]) {
      RulesRenumbered(t[RouteRules], bak[RouteRules]);
    }
  }

  // -------------------------------------------------------------------
  // What follows for the settings that name rows
  // -------------------------------------------------------------------

  // The tables by which ids are judged are those that were copied.
  lemma JudgedTables(t: Tables, now: Tables, bak: Tables, parts: Parts, preserved: set<string>)
    requires MainOk(t) && MainOk(now) && now.Keys == t.Keys
    requires CopiedOrKept(t, now, bak, parts, preserved) && LinksCut(t, now, bak, parts, preserved)
    ensures now[Profiles] == Arrived(t, bak, parts, preserved, Profiles)
    ensures now[GroupsOrder] == Arrived(t, bak, parts, preserved, GroupsOrder)
    ensures SameIds(Arrived(t, bak, parts, preserved, Groups), now[Groups])
    ensures SameIds(Arrived(t, bak, parts, preserved, RouteProfiles), now[RouteProfiles])
    ensures !Replaces(parts.profiles, t, bak, Profiles) ==> Arrived(t, bak, parts, preserved, Profiles) == t[Profiles]
    ensures !Replaces(parts.profiles, t, bak, Groups) ==> Arrived(t, bak, parts, preserved, Groups) == t[Groups]
    ensures !Replaces(parts.routes, t, bak, RouteProfiles) ==> Arrived(t, bak, parts, preserved, RouteProfiles) == t[RouteProfiles]
  {
    hide Copied, HasId, KeepKeys, WellTyped, Unlinked;
  }

  /** After a restore every id setting resolves, ids that came from elsewhere are
      reset, and ids whose table stayed are left alone. */
  lemma RestoredIds(sp: Spelling, t: Tables, now: Tables, bak: Tables, parts: Parts, preserved: set<string>)
    requires sp.Ok() && MainOk(t) && MainOk(now) && now.Keys == t.Keys && SettingsRows in t
    requires Restored(sp, t, now, bak, parts, preserved)
    ensures IdsResolve(sp, now)
    ensures ForeignIdsReset(sp, t, now, bak, parts, preserved)
    ensures HostIdsStay(sp, t, now, bak, parts)
  {
    hide WellTyped, SettingOf, HasId, KeepKeys, CopiedOrKept, LinksCut, RulesClosed, AfterCopy, Arrived, Default, Lowest, IdKey;
    JudgedTables(t, now, bak, parts, preserved);
    KeptUnlessReplaced(t, bak, parts, preserved);
    DefaultExists(now[GroupsOrder], now[Groups]);
    LowestExists(now[RouteProfiles]);
  }

  lemma DefaultExists(order: Table, groups: Table)
    ensures forall id :: Default(order, groups, id) ==> id.Some? && HasId(groups, id.value)
  {
  }

  lemma LowestExists(t: Table)
    ensures forall id :: Lowest(t, id) ==> id.Some? && HasId(t, id.value)
  {
  }

  // A table of the database once the chosen parts are copied.
  ghost function Arrived(t: Tables, bak: Tables, parts: Parts, preserved: set<string>, name: TableName): Table
    requires name in t
  {
    AfterCopy(t, bak, parts, KeepKeys(t, bak, parts, preserved), name)
  }

  /** When a setting that is not taken from the backup stays as it is. */
  ghost predicate Keeps(sp: Spelling, t: Tables, bak: Tables, parts: Parts, preserved: set<string>, key: string)
    requires MainOk(t)
  {
    var id := SettingId(sp, t, key);
    if SettingsRows !in t then true
    else if key == "remember_id" then
      id.None? || id.value < 0 || Usable(id, t[Profiles], Replaces(parts.profiles, t, bak, Profiles))
    else if key == "current_group" then
      var groups := Arrived(t, bak, parts, preserved, Groups);
      || Usable(id, t[Groups], Replaces(parts.profiles, t, bak, Groups))
      || groups.rows == [] || Default(Arrived(t, bak, parts, preserved, GroupsOrder), groups, id)
    else if key == "current_route_id" then
      var routes := Arrived(t, bak, parts, preserved, RouteProfiles);
      || Usable(id, t[RouteProfiles], Replaces(parts.routes, t, bak, RouteProfiles))
      || routes.rows == [] || Lowest(routes, id)
    else true
  }

  /** A setting the caller asked to preserve, or whose part is not restored, stays
      exactly when nothing makes its id stale. */
  lemma PreservedStayIff(sp: Spelling, t: Tables, now: Tables, bak: Tables, parts: Parts, preserved: set<string>, key: string)
    requires sp.Ok() && MainOk(t) && MainOk(now) && now.Keys == t.Keys && Restored(sp, t, now, bak, parts, preserved)
    requires key in preserved || !parts.settings
    ensures SettingOf(now, key) == SettingOf(t, key) <==> Keeps(sp, t, bak, parts, preserved, key)
  {
    hide WellTyped, Lookup, HasId, KeepKeys, CopiedOrKept, LinksCut, RulesClosed, AfterCopy, Arrived, Default, Lowest;
    JudgedTables(t, now, bak, parts, preserved);
    KeptUnlessReplaced(t, bak, parts, preserved);
    var id, after := SettingId(sp, t, key), SettingId(sp, now, key);
    DefaultByIds(now[GroupsOrder], Arrived(t, bak, parts, preserved, Groups), now[Groups], id);
    LowestByIds(Arrived(t, bak, parts, preserved, RouteProfiles), now[RouteProfiles], id);
  }

  // One row in every table, and settings that remember the profile.
  const SAMPLE: Table := Table({"id"}, map["id" := Int(0)], [map["id" := Int(7)]])
  const SAMPLE_SETTINGS: Table := Table({"key", "value"}, map["key" := Null, "value" := Null],
                                        [map["key" := Text("remember_id"), "value" := Int(7)]])

  function SampleTables(): Tables {
    map n: TableName | PartOf(n) < 5 :: if n == SettingsRows then SAMPLE_SETTINGS else SAMPLE
  }

  lemma SampleOk()
    ensures IdTable(SAMPLE) && SettingsTable(SAMPLE_SETTINGS)
    ensures Lookup(SAMPLE_SETTINGS.rows, "remember_id") == Some(Int(7))
  {
    var row := SAMPLE_SETTINGS.rows[0];
    assert row.Keys == SAMPLE_SETTINGS.columns && SAMPLE_SETTINGS.defaults.Keys == SAMPLE_SETTINGS.columns;
    assert SettingRow(row) && KeyOf(row) == "remember_id";
  }

  lemma SampleMainOk()
    ensures MainOk(SampleTables()) && SettingOf(SampleTables(), "remember_id") == Some(Int(7))
  {
    hide IdTable, SettingsTable, Lookup;
    SampleOk();
    IdTableIsOk(SAMPLE);
  }

  /** Restoring the profiles of a database's own backup changes a remembered
      profile that the caller asked to preserve. */
  method PreservedCanChange(sp: Spelling) returns (t: Tables, before: Option<Cell>, after: Option<Cell>)
    requires sp.Ok()
    ensures MainOk(t) && !Keeps(sp, t, t, Parts(true, false, false, false, false), {"remember_id"}, "remember_id")
    ensures before == Some(Int(7)) && after == Some(Text(sp.show(NO_PROFILE)))
  {
    hide Arrived, AfterCopy, WellTyped, Lookup, Raised, TotalSkipped, LinksCut, CopiedOrKept, RulesClosed, GroupSet, RouteSet, SAMPLE, SAMPLE_SETTINGS;
    SampleMainOk();
    t := SampleTables();
    var db := new Database(t, Counters(7, 7, 7, 7, 7, 7), sp);
    before := SettingOf(db.tables, "remember_id");
    var skipped := db.RestoreSelective(Backup(t, None), Parts(true, false, false, false, false), {"remember_id"});
    after := SettingOf(db.tables, "remember_id");
  }

  lemma KeptUnlessReplaced(t: Tables, bak: Tables, parts: Parts, preserved: set<string>)
    ensures var keep := KeepKeys(t, bak, parts, preserved);
      && (Replaces(parts.profiles, t, bak, Profiles) || "remember_id" in keep)
      && (Replaces(parts.profiles, t, bak, Groups) || "current_group" in keep)
      && (Replaces(parts.routes, t, bak, RouteProfiles) || "current_route_id" in keep)
      && preserved <= keep
  {
  }

  function Max3(a: int, b: int, c: int): int {
    var m := if a < b then b else a;
    if m < c then c else m
  }

  // A counter never falls, and covers every id of its table and the backup's counter.
  ghost predicate Covers(was: int, now: int, t: Table, bak: Option<int>) {
    && was <= now && (forall id :: HasId(t, id) ==> id <= now) && (bak.Some? ==> bak.value <= now)
  }

  ghost predicate RaisedProfiles(was: Counters, now: Counters, t: Tables, ids: Option<BackupIds>)
    requires HasIdTables(t)
  {
    && Covers(was.profile, now.profile, t[Profiles], if ids.Some? then Some(ids.value.profile) else None)
    && Covers(was.group, now.group, t[Groups], if ids.Some? then Some(ids.value.group) else None)
    && Covers(was.route, now.route, t[RouteProfiles], if ids.Some? then Some(ids.value.route) else None)
  }

  ghost predicate Raised(was: Counters, now: Counters, parts: Parts, t: Tables, ids: Option<BackupIds>)
    requires HasIdTables(t)
  {
    && (if parts.profiles || parts.routes then RaisedProfiles(was, now, t, ids)
        else now.profile == was.profile && now.group == was.group && now.route == was.route)
    && (if parts.otp then Covers(was.otp, now.otp, t[OtpProfiles], if ids.Some? then ids.value.otp else None)
        else now.otp == was.otp)
    && (if parts.ipLists then
          && Covers(was.list, now.list, t[IpLists], if ids.Some? then ids.value.list else None)
          && Covers(was.scan, now.scan, t[IpScans], if ids.Some? then ids.value.scan else None)
        else now.list == was.list && now.scan == was.scan)
  }

  // Only the first three counters matter to the profile part.
  lemma RaisedFrame(was: Counters, now: Counters, t: Tables, ids: Option<BackupIds>)
    requires HasIdTables(t)
    ensures forall mid: Counters :: mid.profile == now.profile && mid.group == now.group && mid.route == now.route ==>
      RaisedProfiles(was, mid, t, ids) == RaisedProfiles(was, now, t, ids)
  {
    hide Covers;
  }

  ghost predicate SameIds(a: Table, b: Table) {
    |a.rows| == |b.rows| && forall id :: HasId(a, id) <==> HasId(b, id)
  }

  lemma IdTablesOk(t: Tables)
    requires MainOk(t)
    ensures Groups in t && RouteProfiles in t && IdTable(t[Groups]) && IdTable(t[RouteProfiles])
  {
    assert IdTableName(Groups) && IdTableName(RouteProfiles);
  }

  lemma Cut(t: Table, column: string)
    requires IdTable(t) && column in t.columns && column != "id"
    ensures var after := WithColumn(t, column, Int(-1));
      IdTable(after) && after.Ok() && Unlinked(after, column) && SameIds(t, after) && after.columns == t.columns
  {
    WithColumnOk(t, column, Int(-1));
  }

  lemma KeysDiffer()
    ensures "remember_id" != "current_group" && "remember_id" != "current_route_id" && "current_group" != "current_route_id"
  {
    assert |"remember_id"| == 11 && |"current_group"| == 13 && |"current_route_id"| == 16;
  }

  // An id that stays: it did not lose its table, and names a row of it.
  ghost predicate Usable(id: Option<int>, t: Table, stale: bool) {
    id.Some? && !stale && HasId(t, id.value)
  }

  // What becomes of each of the three settings.
  ghost predicate RememberedSet(sp: Spelling, profiles: Table, stale: bool, was: Option<Cell>, now: Option<Cell>) {
    var id := IdOf(sp, was);
    now == if id.Some? && id.value >= 0 && !Usable(id, profiles, stale) then Spelled(sp, NO_PROFILE) else was
  }

  ghost predicate GroupSet(sp: Spelling, order: Table, groups: Table, stale: bool, was: Option<Cell>, now: Option<Cell>) {
    if Usable(IdOf(sp, was), groups, stale) || groups.rows == [] || Default(order, groups, IdOf(sp, was)) then now == was
    else Default(order, groups, IdOf(sp, now)) && now == Spelled(sp, IdIn(sp, now.value))
  }

  ghost predicate RouteSet(sp: Spelling, routes: Table, stale: bool, was: Option<Cell>, now: Option<Cell>) {
    if Usable(IdOf(sp, was), routes, stale) || routes.rows == [] || Lowest(routes, IdOf(sp, was)) then now == was
    else Lowest(routes, IdOf(sp, now)) && now == Spelled(sp, IdIn(sp, now.value))
  }

  // Only which rows exist matters.
  lemma DefaultByIds(order: Table, a: Table, b: Table, id: Option<int>)
    requires SameIds(a, b)
    ensures Default(order, a, id) == Default(order, b, id)
  {
    hide HasId;
    assert forall k: nat :: Shown(order, a, k) == Shown(order, b, k);
    forall k: nat | k < |order.rows| ensures NoneBefore(order, a, k) == NoneBefore(order, b, k) {
      hide Shown;
    }
  }

  lemma LowestByIds(a: Table, b: Table, id: Option<int>)
    requires SameIds(a, b)
    ensures Lowest(a, id) == Lowest(b, id)
  {
    hide HasId;
  }

  lemma GroupSetByIds(sp: Spelling, order: Table, a: Table, b: Table)
    requires a == b || SameIds(a, b)
    ensures forall stale, was, now :: GroupSet(sp, order, a, stale, was, now) <==> GroupSet(sp, order, b, stale, was, now)
  {
    hide HasId, Default;
    if a != b {
      forall id ensures Default(order, a, id) == Default(order, b, id) {
        DefaultByIds(order, a, b, id);
      }
    }
  }

  lemma RouteSetByIds(sp: Spelling, a: Table, b: Table)
    requires a == b || SameIds(a, b)
    ensures forall stale, was, now :: RouteSet(sp, a, stale, was, now) <==> RouteSet(sp, b, stale, was, now)
  {
    hide HasId, Lowest;
    if a != b {
      forall id ensures Lowest(a, id) == Lowest(b, id) {
        LowestByIds(a, b, id);
      }
    }
  }

  /** There is one default group. */
  lemma DefaultUnique(order: Table, groups: Table, a: Option<int>, b: Option<int>)
    requires a.Some? ==> Default(order, groups, a)
    ensures a.Some? && Default(order, groups, b) ==> a == b
  {
    hide Shown, HasId;
  }

  lemma LowestUnique(t: Table, a: Option<int>, b: Option<int>)
    requires a.Some? ==> Lowest(t, a)
    ensures a.Some? && Lowest(t, b) ==> a == b
  {
    hide HasId;
  }

  ghost predicate Resolved(sp: Spelling, t: Tables, now: Tables, profileStale: bool, groupStale: bool, routeStale: bool)
    requires HasIdTables(now) && GroupsOrder in now
  {
    && RememberedSet(sp, now[Profiles], profileStale, SettingOf(t, "remember_id"), SettingOf(now, "remember_id"))
    && GroupSet(sp, now[GroupsOrder], now[Groups], groupStale, SettingOf(t, "current_group"), SettingOf(now, "current_group"))
    && RouteSet(sp, now[RouteProfiles], routeStale, SettingOf(t, "current_route_id"), SettingOf(now, "current_route_id"))
  }

  // Nothing but the settings that name rows differs.
  ghost predicate OnlyIdSettings(t: Tables, now: Tables) {
    && now.Keys == t.Keys && (forall n :: n in t && n != SettingsRows ==> now[n] == t[n])
    && forall key :: !IdKey(key) ==> SettingOf(now, key) == SettingOf(t, key)
  }

  lemma OnlySettingKeys(t: Tables, now: Tables, key: string)
    requires OnlySetting(t, now, key)
    ensures now.Keys == t.Keys
  {
  }

  lemma OneAfterAnother(sp: Spelling, t0: Tables, t1: Tables, t2: Tables, t3: Tables, profileStale: bool, groupStale: bool, routeStale: bool)
    requires SettingsRows in t0 && HasIdTables(t0) && GroupsOrder in t0
    requires t1.Keys == t0.Keys && t2.Keys == t0.Keys && t3.Keys == t0.Keys
    requires OnlySetting(t0, t1, "remember_id") && OnlySetting(t1, t2, "current_group") && OnlySetting(t2, t3, "current_route_id")
    requires RememberedSet(sp, t1[Profiles], profileStale, SettingOf(t0, "remember_id"), SettingOf(t1, "remember_id"))
    requires GroupSet(sp, t2[GroupsOrder], t2[Groups], groupStale, SettingOf(t1, "current_group"), SettingOf(t2, "current_group"))
    requires RouteSet(sp, t3[RouteProfiles], routeStale, SettingOf(t2, "current_route_id"), SettingOf(t3, "current_route_id"))
    ensures OnlyIdSettings(t0, t3) && HasIdTables(t3) && GroupsOrder in t3
    ensures Resolved(sp, t0, t3, profileStale, groupStale, routeStale)
  {
    hide SettingOf, RememberedSet, GroupSet, RouteSet;
    KeysDiffer();
  }

  lemma TableReplaced(t: Tables, n: TableName, table: Table)
    requires MainOk(t) && n in t && IdTable(table) && n != SettingsRows
    ensures MainOk(t[n := table])
  {
    hide IdTable, SettingsTable;
    IdTableIsOk(table);
  }

  lemma IdTableIsOk(table: Table)
    requires IdTable(table)
    ensures table.Ok()
  {
  }

  lemma NoLinks(t: Table, column: string)
    requires column !in t.columns
    ensures Unlinked(t, column) && SameIds(t, t)
  {
  }

  // The first group shown, or else the lowest.
  method FirstGroup(order: Table, groups: Table) returns (first: Option<int>)
    ensures first.None? <==> groups.rows == []
    ensures first.Some? ==> Default(order, groups, first)
  {
    hide HasId, ShownFirst, Shown;
    first := FirstShown(order, groups);
    if first.None? {
      first := MinId(groups);
    }
  }

  ghost predicate Lowest(t: Table, id: Option<int>) {
    id.Some? && HasId(t, id.value) && forall other :: HasId(t, other) ==> id.value <= other
  }

  // The group a client without a usable current group starts with.
  ghost predicate Default(order: Table, groups: Table, id: Option<int>) {
    id.Some? && HasId(groups, id.value) &&
    (ShownFirst(order, groups, id.value) || ((forall k: nat :: !Shown(order, groups, k)) && Lowest(groups, id)))
  }

  // Nothing but one setting differs.
  ghost predicate OnlySetting(t: Tables, now: Tables, key: string) {
    && now.Keys == t.Keys && (forall n :: n in t && n != SettingsRows ==> now[n] == t[n])
    && forall other :: other != key ==> SettingOf(now, other) == SettingOf(t, other)
  }

  // The chosen parts below `part` are copied, all other tables are as before.
  ghost predicate Done(t: Tables, now: Tables, bak: Tables, keep: set<string>, parts: Parts, part: nat) {
    now.Keys == t.Keys &&
    forall n :: n in now ==>
      now[n] == if PartOf(n) < part && Chosen(parts, PartOf(n)) && n in bak then Replaced(t, bak, keep, n) else t[n]
  }

  lemma MarkersIn(parts: Parts)
    ensures Selected(parts, Markers) == parts.settings
  {
  }

  lemma NothingDone(t: Tables, bak: Tables, keep: set<string>, parts: Parts)
    ensures Done(t, t, bak, keep, parts, 0)
  {
  }

  lemma AllDone(t: Tables, now: Tables, bak: Tables, keep: set<string>, parts: Parts)
    requires Done(t, now, bak, keep, parts, 5)
    ensures now.Keys == t.Keys
    ensures forall n :: n in now ==> now[n] == if Selected(parts, n) && n in bak then Replaced(t, bak, keep, n) else t[n]
  {
    hide Replaced;
  }

  lemma SameSource(a: Tables, b: Tables, bak: Tables, keep: set<string>, n: TableName)
    requires n in a && n in b && n in bak && a[n] == b[n]
    ensures Replaced(a, bak, keep, n) == Replaced(b, bak, keep, n)
  {
    hide Copied;
  }

  function TotalSkipped(t: Tables, bak: Tables, names: seq<TableName>): nat {
    if names == [] then 0 else TotalSkipped(t, bak, names[..|names| - 1]) + RowsSkipped(t, bak, names[|names| - 1])
  }

  lemma {:induction false} SameSkips(a: Tables, b: Tables, bak: Tables, names: seq<TableName>)
    requires a.Keys == b.Keys && forall n :: n in names && n in a ==> a[n] == b[n]
    ensures TotalSkipped(a, bak, names) == TotalSkipped(b, bak, names)
    decreases |names|
  {
    hide SkippedRows;
    if names != [] { SameSkips(a, b, bak, names[..|names| - 1]); }
  }

  lemma StillMain(t: Tables, bak: Tables, parts: Parts, keep: set<string>, after: Tables)
    requires MainOk(t) && WellTyped(bak) && after.Keys == t.Keys
    requires forall n :: n in after ==> after[n] == AfterCopy(t, bak, parts, keep, n)
    ensures MainOk(after)
  {
    hide AfterCopy, IdTable, SettingsTable;
    forall n | n in after ensures
      after[n].Ok() && (IdTableName(n) ==> IdTable(after[n])) && (n == SettingsRows ==> SettingsTable(after[n]))
    {
      AfterCopyOk(t, bak, parts, keep, n);
    }
  }
}
