/** Tables of the database and of a backup, and copying one over the other. */
module BackupTables {
  import opened Options
  import opened RuleOrder

  datatype TableName = Profiles | GroupsOrder | Groups | RouteRules | RouteProfiles | SettingsRows | Markers
                     | OtpProfiles | IpListEntries | IpScans | IpLists

  datatype Cell = Null | Int(i: int) | Text(s: string)
  type Row = map<string, Cell>

  datatype Table = Table(columns: set<string>, defaults: Row, rows: seq<Row>) {
    ghost predicate Ok() {
      defaults.Keys == columns && forall i :: 0 <= i < |rows| ==> rows[i].Keys == columns
    }
  }

  // -------------------------------------------------------------------
  // copyTable
  // -------------------------------------------------------------------

  // A value another schema's column may hold without changing what a rule matches.
  predicate Harmless(c: Cell) {
    c == Null || c == Text("") || c == Text("[]") || c == Int(0) || c == Text("0")
  }

  predicate Survives(row: Row, foreign: set<string>) {
    forall c :: c in foreign && c in row ==> Harmless(row[c])
  }

  function Surviving(rows: seq<Row>, foreign: set<string>): (s: seq<Row>)
    ensures |s| <= |rows|
  {
    if rows == [] then []
    else
      Surviving(rows[..|rows| - 1], foreign) + if Survives(rows[|rows| - 1], foreign) then [rows[|rows| - 1]] else []
  }

  function KeyOf(row: Row): string {
    if "key" in row && row["key"].Text? then row["key"].s else ""
  }

  function Keeping(rows: seq<Row>, keep: set<string>): seq<Row> {
    if rows == [] then []
    else Keeping(rows[..|rows| - 1], keep) + if KeyOf(rows[|rows| - 1]) in keep then [rows[|rows| - 1]] else []
  }

  function Dropping(rows: seq<Row>, keep: set<string>): seq<Row> {
    if rows == [] then []
    else Dropping(rows[..|rows| - 1], keep) + if KeyOf(rows[|rows| - 1]) in keep then [] else [rows[|rows| - 1]]
  }

  function IntOf(row: Row, column: string): int {
    if column in row && row[column].Int? then row[column].i else 0
  }

  function RuleKeys(rows: seq<Row>): (ks: seq<Key>)
    ensures |ks| == |rows|
  {
    seq(|rows|, i requires 0 <= i < |rows| => Key(IntOf(rows[i], "route_profile_id"), IntOf(rows[i], "rule_order")))
  }

  // Columns the backup lacks take their default.
  function Projected(main: Table, bak: Table, row: Row, number: Option<nat>): Row {
    map c | c in main.columns ::
      if c !in bak.columns || c !in row then (if c in main.defaults then main.defaults[c] else Null)
      else if number.Some? && c == "rule_order" then Int(number.value)
      else row[c]
  }

  function AllProjected(main: Table, bak: Table, rows: seq<Row>, renumber: bool): (r: seq<Row>)
    ensures |r| == |rows|
  {
    seq(|rows|, i requires 0 <= i < |rows| =>
      Projected(main, bak, rows[i], if renumber then Some(Number(RuleKeys(rows), i)) else None))
  }

  function ForeignColumns(main: Table, bak: Table, name: TableName): set<string> {
    if name == RouteRules then bak.columns - main.columns else {}
  }

  function SkippedRows(main: Table, bak: Table, name: TableName): nat {
    |bak.rows| - |Surviving(bak.rows, ForeignColumns(main, bak, name))|
  }

  function Copied(main: Table, bak: Table, name: TableName, keep: set<string>): Table {
    if main.columns !! bak.columns then main
    else
      var survivors := Dropping(Surviving(bak.rows, ForeignColumns(main, bak, name)), keep);
      main.(rows := Keeping(main.rows, keep) + AllProjected(main, bak, survivors, SkippedRows(main, bak, name) > 0))
  }

  lemma {:induction false} SurvivingRows(rows: seq<Row>, foreign: set<string>)
    ensures forall row :: row in Surviving(rows, foreign) ==> row in rows && Survives(row, foreign)
    ensures forall row :: row in rows && Survives(row, foreign) ==> row in Surviving(rows, foreign)
  {
    if rows != [] { SurvivingRows(rows[..|rows| - 1], foreign); }
  }

  lemma {:induction false} DroppingRows(rows: seq<Row>, keep: set<string>)
    ensures forall row :: row in Dropping(rows, keep) <==> row in rows && KeyOf(row) !in keep
    ensures forall row :: row in Keeping(rows, keep) <==> row in rows && KeyOf(row) in keep
  {
    if rows != [] { DroppingRows(rows[..|rows| - 1], keep); }
  }

  lemma {:induction false} NothingForeign(rows: seq<Row>)
    ensures Surviving(rows, {}) == rows
  {
    if rows != [] {
      NothingForeign(rows[..|rows| - 1]);
      assert Survives(rows[|rows| - 1], {});
      assert rows == rows[..|rows| - 1] + [rows[|rows| - 1]];
    }
  }

  lemma {:induction false} NothingKept(rows: seq<Row>)
    ensures Dropping(rows, {}) == rows && Keeping(rows, {}) == []
  {
    if rows != [] {
      NothingKept(rows[..|rows| - 1]);
      assert rows == rows[..|rows| - 1] + [rows[|rows| - 1]];
    }
  }

  lemma CopiedOk(main: Table, bak: Table, name: TableName, keep: set<string>)
    requires main.Ok() && bak.Ok()
    ensures Copied(main, bak, name, keep).Ok() && Copied(main, bak, name, keep).columns == main.columns
  {
    DroppingRows(main.rows, keep);
    var kept := Keeping(main.rows, keep);
    forall i | 0 <= i < |kept| ensures kept[i].Keys == main.columns {
      assert kept[i] in kept;
      var k :| 0 <= k < |main.rows| && main.rows[k] == kept[i];
    }
  }

  /** The rows of the backup with a foreign condition. */
  method CountSkipped(rows: seq<Row>, foreign: set<string>) returns (skipped: nat)
    ensures skipped == |rows| - |Surviving(rows, foreign)|
  {
    hide Survives;
    skipped := 0;
    for i := 0 to |rows|
      invariant skipped == i - |Surviving(rows[..i], foreign)|
    {
      assert rows[..i + 1][..i] == rows[..i];
      if !Survives(rows[i], foreign) {
        skipped := skipped + 1;
      }
    }
    assert rows[..|rows|] == rows;
  }

  /** DELETE, except for the keys to keep. */
  method Wipe(rows: seq<Row>, keep: set<string>) returns (kept: seq<Row>)
    ensures kept == Keeping(rows, keep)
  {
    hide KeyOf;
    kept := [];
    for i := 0 to |rows|
      invariant kept == Keeping(rows[..i], keep)
    {
      assert rows[..i + 1][..i] == rows[..i];
      if KeyOf(rows[i]) in keep {
        kept := kept + [rows[i]];
      }
    }
    assert rows[..|rows|] == rows;
  }

  /** The rows the copy selects. */
  method Select(rows: seq<Row>, foreign: set<string>, keep: set<string>) returns (picked: seq<Row>)
    ensures picked == Dropping(Surviving(rows, foreign), keep)
  {
    hide KeyOf, Survives;
    picked := [];
    for i := 0 to |rows|
      invariant picked == Dropping(Surviving(rows[..i], foreign), keep)
    {
      assert rows[..i + 1][..i] == rows[..i];
      ghost var before := Surviving(rows[..i], foreign);
      if Survives(rows[i], foreign) {
        assert (before + [rows[i]])[..|before|] == before;
        if KeyOf(rows[i]) !in keep {
          picked := picked + [rows[i]];
        }
      } else {
        assert before + [] == before;
      }
    }
    assert rows[..|rows|] == rows;
  }

  /** The rows as they are inserted, with the gaps in their numbers closed. */
  method Insert(main: Table, bak: Table, rows: seq<Row>, renumber: bool) returns (inserted: seq<Row>)
    ensures inserted == AllProjected(main, bak, rows, renumber)
  {
    hide Number, RuleKeys, Projected;
    inserted := [];
    for i := 0 to |rows|
      invariant inserted == AllProjected(main, bak, rows, renumber)[..i]
    {
      var number := None;
      if renumber {
        var n := CountEarlier(RuleKeys(rows), i);
        number := Some(n);
      }
      inserted := inserted + [Projected(main, bak, rows[i], number)];
    }
  }

  /** One table copied: wipe, select, renumber and insert. */
  method CopyRows(main: Table, bak: Table, name: TableName, keep: set<string>) returns (after: Table, skipped: nat)
    ensures after == Copied(main, bak, name, keep)
    ensures skipped == if main.columns !! bak.columns then 0 else SkippedRows(main, bak, name)
  {
    hide AllProjected, Keeping, Dropping, Surviving;
    var foreign := ForeignColumns(main, bak, name);
    skipped := CountSkipped(bak.rows, foreign);
    if main.columns !! bak.columns {
      return main, 0;
    }
    var kept := Wipe(main.rows, keep);
    var picked := Select(bak.rows, foreign, keep);
    var inserted := Insert(main, bak, picked, skipped > 0);
    after := main.(rows := kept + inserted);
  }

  // -------------------------------------------------------------------
  // Route rules
  // -------------------------------------------------------------------

  lemma CopiedRules(main: Table, bak: Table)
    requires "rule_order" in main.columns && "rule_order" in bak.columns
    ensures Copied(main, bak, RouteRules, {}).rows
            == AllProjected(main, bak, Surviving(bak.rows, bak.columns - main.columns), SkippedRows(main, bak, RouteRules) > 0)
  {
    hide AllProjected, Surviving;
    NothingKept(Surviving(bak.rows, bak.columns - main.columns));
    NothingKept(main.rows);
  }

  lemma RuleNumber(main: Table, bak: Table, rows: seq<Row>, i: nat)
    requires NumbersRules(main) && NumbersRules(bak) && i < |rows| && rows[i].Keys == bak.columns
    ensures RuleKeys(AllProjected(main, bak, rows, true))[i] == Key(RuleKeys(rows)[i].part, Number(RuleKeys(rows), i))
  {
    hide Number;
    assert "rule_order" != "route_profile_id" by { assert |"rule_order"| == 10 && |"route_profile_id"| == 16; }
  }

  predicate NumbersRules(t: Table) { "rule_order" in t.columns && "route_profile_id" in t.columns }

  /** When rules were skipped, those of each profile that survive are numbered
      0 to n - 1, in their old order. */
  lemma RulesRenumbered(main: Table, bak: Table)
    requires bak.Ok() && NumbersRules(main) && NumbersRules(bak) && SkippedRows(main, bak, RouteRules) > 0
    ensures Closed(RuleKeys(Surviving(bak.rows, bak.columns - main.columns)), RuleKeys(Copied(main, bak, RouteRules, {}).rows))
  {
    hide Number, Copied, Surviving, RuleKeys, SkippedRows, Survives, Closed, AllProjected;
    var rows := Surviving(bak.rows, bak.columns - main.columns);
    CopiedRules(main, bak);
    SurvivingRows(bak.rows, bak.columns - main.columns);
    var after := AllProjected(main, bak, rows, true);
    forall i | 0 <= i < |rows| ensures RuleKeys(after)[i] == Key(RuleKeys(rows)[i].part, Number(RuleKeys(rows), i)) {
      assert rows[i] in rows;
      var k :| 0 <= k < |bak.rows| && bak.rows[k] == rows[i];
      RuleNumber(main, bak, rows, i);
    }
    NumberingCloses(RuleKeys(rows), RuleKeys(after));
  }

  /** No rule with a foreign condition is copied. */
  lemma ForeignRulesDropped(main: Table, bak: Table)
    ensures var rows := Surviving(bak.rows, ForeignColumns(main, bak, RouteRules));
      forall row :: row in rows <==> row in bak.rows && Survives(row, bak.columns - main.columns)
  {
    SurvivingRows(bak.rows, bak.columns - main.columns);
  }

  // -------------------------------------------------------------------
  // Ids
  // -------------------------------------------------------------------

  ghost predicate IdTable(t: Table) {
    t.Ok() && "id" in t.columns && forall i :: 0 <= i < |t.rows| ==> "id" in t.rows[i] && t.rows[i]["id"].Int?
  }

  ghost predicate HasId(t: Table, id: int) {
    exists i :: 0 <= i < |t.rows| && IntOf(t.rows[i], "id") == id
  }

  lemma CopiedWhole(main: Table, bak: Table, name: TableName)
    requires "id" in main.columns && "id" in bak.columns && name != RouteRules
    ensures Copied(main, bak, name, {}).rows == AllProjected(main, bak, bak.rows, false)
  {
    hide AllProjected, Keeping, Dropping, Surviving;
    NothingForeign(bak.rows);
    NothingKept(bak.rows);
    NothingKept(main.rows);
  }

  lemma ProjectedId(main: Table, bak: Table, rows: seq<Row>, i: nat)
    requires "id" in main.columns && "id" in bak.columns && i < |rows| && "id" in rows[i]
    ensures var row := AllProjected(main, bak, rows, false)[i]; "id" in row && row["id"] == rows[i]["id"]
  {
    hide Number, RuleKeys;
  }

  /** Copying an id table replaces its ids by the backup's. */
  lemma CopiedIds(main: Table, bak: Table, name: TableName)
    requires IdTable(main) && IdTable(bak) && name != RouteRules
    ensures IdTable(Copied(main, bak, name, {}))
    ensures forall id :: HasId(Copied(main, bak, name, {}), id) <==> HasId(bak, id)
  {
    hide Copied, AllProjected;
    CopiedWhole(main, bak, name);
    CopiedOk(main, bak, name, {});
    var after := Copied(main, bak, name, {}).rows;
    forall i | 0 <= i < |bak.rows| ensures "id" in after[i] && after[i]["id"] == bak.rows[i]["id"] {
      ProjectedId(main, bak, bak.rows, i);
    }
  }

  // -------------------------------------------------------------------
  // Settings
  // -------------------------------------------------------------------

  ghost predicate SettingRow(row: Row) { "key" in row && row["key"].Text? && "value" in row }

  ghost predicate SettingRows(rows: seq<Row>) {
    forall i :: 0 <= i < |rows| ==> SettingRow(rows[i])
  }

  ghost predicate SettingsTable(t: Table) {
    t.Ok() && "key" in t.columns && "value" in t.columns && SettingRows(t.rows)
  }

  function Lookup(rows: seq<Row>, key: string): Option<Cell> {
    if rows == [] then None
    else if KeyOf(rows[0]) == key && "value" in rows[0] then Some(rows[0]["value"])
    else Lookup(rows[1..], key)
  }

  lemma {:induction false} LookupAppend(a: seq<Row>, b: seq<Row>, key: string)
    ensures Lookup(a + b, key) == if Lookup(a, key).Some? then Lookup(a, key) else Lookup(b, key)
  {
    if a == [] {
      assert a + b == b;
    } else {
      assert (a + b)[1..] == a[1..] + b;
      LookupAppend(a[1..], b, key);
    }
  }

  lemma LookupOne(row: Row, key: string)
    ensures Lookup([row], key) == if KeyOf(row) == key && "value" in row then Some(row["value"]) else None
  {
    assert [row][1..] == [];
  }

  lemma LookupLast(rows: seq<Row>, last: Row, key: string)
    ensures Lookup(rows + [last], key)
            == if Lookup(rows, key).None? && KeyOf(last) == key && "value" in last then Some(last["value"]) else Lookup(rows, key)
  {
    hide Lookup, KeyOf;
    LookupAppend(rows, [last], key);
    LookupOne(last, key);
  }

  lemma {:induction false} LookupKeeping(rows: seq<Row>, keep: set<string>, key: string)
    ensures Lookup(Keeping(rows, keep), key) == if key in keep then Lookup(rows, key) else None
  {
    hide Lookup, KeyOf;
    NothingFound(key);
    if rows != [] {
      var init, last := rows[..|rows| - 1], rows[|rows| - 1];
      LookupKeeping(init, keep, key);
      assert rows == init + [last];
      LookupLast(init, last, key);
      LookupLast(Keeping(init, keep), last, key);
      assert Keeping(init, keep) + [] == Keeping(init, keep);
    }
  }

  lemma {:induction false} LookupDropping(rows: seq<Row>, keep: set<string>, key: string)
    ensures Lookup(Dropping(rows, keep), key) == if key in keep then None else Lookup(rows, key)
  {
    hide Lookup, KeyOf;
    NothingFound(key);
    if rows != [] {
      var init, last := rows[..|rows| - 1], rows[|rows| - 1];
      LookupDropping(init, keep, key);
      assert rows == init + [last];
      LookupLast(init, last, key);
      LookupLast(Dropping(init, keep), last, key);
      assert Dropping(init, keep) + [] == Dropping(init, keep);
    }
  }

  lemma NothingFound(key: string)
    ensures Lookup([], key) == None
  {
  }

  lemma {:induction false} LookupProjected(main: Table, bak: Table, rows: seq<Row>, key: string)
    requires {"key", "value"} <= main.columns && {"key", "value"} <= bak.columns && SettingRows(rows)
    ensures Lookup(AllProjected(main, bak, rows, false), key) == Lookup(rows, key)
    decreases |rows|
  {
    if rows != [] {
      LookupProjected(main, bak, rows[1..], key);
      assert AllProjected(main, bak, rows, false)[1..] == AllProjected(main, bak, rows[1..], false);
      assert SettingRow(rows[0]);
    }
  }

  lemma CopiedSettingRows(main: Table, bak: Table, keep: set<string>)
    requires "key" in main.columns && "key" in bak.columns
    ensures Copied(main, bak, SettingsRows, keep).rows
            == Keeping(main.rows, keep) + AllProjected(main, bak, Dropping(bak.rows, keep), false)
  {
    hide AllProjected, Keeping, Dropping;
    NothingForeign(bak.rows);
  }

  lemma ProjectedSettings(main: Table, bak: Table, rows: seq<Row>)
    requires {"key", "value"} <= main.columns && {"key", "value"} <= bak.columns && SettingRows(rows)
    ensures SettingRows(AllProjected(main, bak, rows, false))
  {
    forall i | 0 <= i < |rows| ensures SettingRow(AllProjected(main, bak, rows, false)[i]) {
      assert SettingRow(rows[i]);
    }
  }

  /** After copying, kept keys have their old value and all others the backup's. */
  lemma CopiedSettings(main: Table, bak: Table, keep: set<string>, key: string)
    requires SettingsTable(main) && SettingsTable(bak)
    ensures SettingsTable(Copied(main, bak, SettingsRows, keep))
    ensures Lookup(Copied(main, bak, SettingsRows, keep).rows, key)
            == if key in keep then Lookup(main.rows, key) else Lookup(bak.rows, key)
  {
    hide Copied, AllProjected, Keeping, Dropping, Lookup, SettingRow;
    CopiedOk(main, bak, SettingsRows, keep);
    var fresh_, kept := Dropping(bak.rows, keep), Keeping(main.rows, keep);
    DroppingRows(bak.rows, keep);
    DroppingRows(main.rows, keep);
    SubRows(fresh_, bak.rows);
    SubRows(kept, main.rows);
    CopiedSettingRows(main, bak, keep);
    ProjectedSettings(main, bak, fresh_);
    LookupProjected(main, bak, fresh_, key);
    LookupKeeping(main.rows, keep, key);
    LookupDropping(bak.rows, keep, key);
    LookupAppend(kept, AllProjected(main, bak, fresh_, false), key);
  }

  lemma SubRows(part: seq<Row>, rows: seq<Row>)
    requires SettingRows(rows) && forall row :: row in part ==> row in rows
    ensures SettingRows(part)
  {
    forall i | 0 <= i < |part| ensures SettingRow(part[i]) {
      assert part[i] in part;
      var k :| 0 <= k < |rows| && rows[k] == part[i];
    }
  }
}
