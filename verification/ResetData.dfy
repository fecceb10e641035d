/** Which tables a reset of operational data keeps, and why the cascading truncation of the others cannot
    reach them. */
module ResetData {
  import opened Wrappers

  type Table = string

  /** For each table of the database, the tables its foreign keys refer to; a key may lack the entry. */
  type Schema = map<Table, seq<Option<Table>>>

  const PRESERVE: set<Table> := {
    "alembic_version", "users", "system_settings", "automation_actions", "change_categories", "change_types",
    "ci_classes", "ci_lifecycles", "ci_relationship_types", "ci_statuses", "ci_types", "discovery_oui_vendors"
  }

  /** The child table has a foreign key to the parent. */
  predicate Refers(schema: Schema, child: Table, parent: Table) {
    child in schema && parent != "" && Some(parent) in schema[child]
  }

  ghost predicate ParentsIn(schema: Schema, child: Table, tables: set<Table>) {
    forall parent :: Refers(schema, child, parent) ==> parent in tables
  }

  /** Every table that a member refers to is a member. */
  ghost predicate Closed(schema: Schema, tables: set<Table>) {
    forall child, parent :: child in tables && Refers(schema, child, parent) ==> parent in tables
  }

  /** Part of every closed set that holds the given tables. */
  ghost predicate Forced(schema: Schema, preserve: set<Table>, tables: set<Table>) {
    forall s: set<Table> :: preserve <= s && Closed(schema, s) ==> tables <= s
  }

  ghost function Referred(schema: Schema): set<Table> {
    set child, i | child in schema && 0 <= i < |schema[child]| && schema[child][i].Some? :: schema[child][i].value
  }

  lemma ParentIsForced(schema: Schema, preserve: set<Table>, keep: set<Table>, child: Table, parent: Table)
    requires Forced(schema, preserve, keep) && child in keep && Refers(schema, child, parent)
    ensures Forced(schema, preserve, keep + {parent})
  {
  }

  /** The foreign keys of one table: its parents are added. */
  method AddParents(schema: Schema, ghost preserve: set<Table>, table: Table, start: set<Table>)
    returns (keep: set<Table>, added: bool)
    requires table in schema && table in start && Forced(schema, preserve, start)
    ensures start <= keep <= start + Referred(schema) && Forced(schema, preserve, keep)
    ensures ParentsIn(schema, table, keep) && (added <==> keep != start)
  {
    keep, added := start, false;
    for i := 0 to |schema[table]|
      invariant start <= keep <= start + Referred(schema) && Forced(schema, preserve, keep)
      invariant added <==> keep != start
      invariant forall k :: 0 <= k < i && schema[table][k].Some? && schema[table][k].value != "" ==>
                              schema[table][k].value in keep
    {
      var parent := schema[table][i];
      if parent.Some? && parent.value != "" && parent.value !in keep {
        ParentIsForced(schema, preserve, keep, table, parent.value);
        keep := keep + {parent.value};
        added := true;
      }
    }
  }

  /** The least closed set of tables that holds the preserved ones, or the name of a table it would hold but
      that does not exist. Tables are visited in any order. */
  method PreservedTables(schema: Schema, preserve: set<Table>) returns (r: Result<set<Table>, Table>)
    ensures r.Ok? ==> preserve <= r.value <= schema.Keys && Closed(schema, r.value) && Forced(schema, preserve, r.value)
    ensures r.Err? ==> r.error !in schema && Forced(schema, preserve, {r.error})
    ensures r.Ok? ==> forall child, i :: child in r.value && 0 <= i < |schema[child]| ==>
                                           schema[child][i] == None || schema[child][i] == Some("")
                                           || schema[child][i].value in r.value
  {
    var keep := preserve;
    var changed := true;
    ghost var world := preserve + Referred(schema);
    while changed
      invariant preserve <= keep <= world && Forced(schema, preserve, keep)
      invariant !changed ==> Closed(schema, keep) && keep <= schema.Keys
      decreases world - keep, changed
    {
      changed := false;
      ghost var before := keep;
      var todo := keep;
      while todo != {}
        invariant before <= keep <= world && Forced(schema, preserve, keep)
        invariant todo <= before && (changed <==> keep != before)
        invariant forall t :: t in before && t !in todo ==> t in schema && ParentsIn(schema, t, keep)
        decreases todo
      {
        var table :| table in todo;
        todo := todo - {table};
        if table !in schema {
          return Err(table);
        }
        var added;
        keep, added := AddParents(schema, preserve, table, keep);
        changed := changed || added;
      }
    }
    forall child, i | child in keep && 0 <= i < |schema[child]|
      ensures schema[child][i] == None || schema[child][i] == Some("") || schema[child][i].value in keep
    {
      if schema[child][i].Some? && schema[child][i].value != "" {
        assert Refers(schema, child, schema[child][i].value);
      }
    }
    r := Ok(keep);
  }

  /** Whatever the order of visits, the result is the same set. */
  lemma PreservedIsUnique(schema: Schema, preserve: set<Table>, a: set<Table>, b: set<Table>)
    requires preserve <= a && Closed(schema, a) && Forced(schema, preserve, a)
    requires preserve <= b && Closed(schema, b) && Forced(schema, preserve, b)
    ensures a == b
  {
    assert a <= b;
    assert b <= a;
  }

  // ---------------------------------------------------------------- the cascade

  /** A chain of references, each table referring to the next. */
  ghost predicate Chain(schema: Schema, path: seq<Table>) {
    && path != []
    && forall i, j :: 0 <= i < |path| && 0 <= j < |path| && j == i + 1 ==> Refers(schema, path[i], path[j])
  }

  /** What `TRUNCATE ... CASCADE` empties: the named tables, and every table with a chain of references to one. */
  ghost predicate Truncated(schema: Schema, targets: set<Table>, t: Table) {
    exists path :: Chain(schema, path) && path[0] == t && path[|path| - 1] in targets
  }

  lemma {:induction false} ChainStaysInside(schema: Schema, keep: set<Table>, path: seq<Table>)
    requires Closed(schema, keep) && Chain(schema, path) && path[0] in keep
    ensures path[|path| - 1] in keep
  {
    if |path| > 1 {
      assert Refers(schema, path[0], path[1]);
      assert forall i :: 0 <= i < |path| - 1 ==> path[1..][i] == path[i + 1];
      ChainStaysInside(schema, keep, path[1..]);
    }
  }

  /** Truncating everything outside a closed set empties exactly what is outside it. */
  lemma CascadeIsExact(schema: Schema, keep: set<Table>, t: Table)
    requires Closed(schema, keep)
    ensures Truncated(schema, schema.Keys - keep, t) && t in schema <==> t in schema.Keys - keep
    ensures t in keep ==> !Truncated(schema, schema.Keys - keep, t)
  {
    if path :| Chain(schema, path) && path[0] == t && path[|path| - 1] in schema.Keys - keep {
      if t in keep {
        ChainStaysInside(schema, keep, path);
      }
    }
    if t in schema.Keys - keep {
      assert Chain(schema, [t]) && [t][0] == t && [t][|[t]| - 1] in schema.Keys - keep;
    }
  }

  /** Foreign keys refer to tables of the database. */
  ghost predicate Intact(schema: Schema) {
    forall child, parent :: Refers(schema, child, parent) ==> parent in schema
  }

  /** The truncation spares a set of tables exactly when the set is closed under references. */
  lemma SparedExactly(schema: Schema, keep: set<Table>)
    requires Intact(schema)
    ensures (forall t :: t in keep ==> !Truncated(schema, schema.Keys - keep, t)) <==> Closed(schema, keep)
  {
    if Closed(schema, keep) {
      forall t | t in keep
        ensures !Truncated(schema, schema.Keys - keep, t)
      {
        CascadeIsExact(schema, keep, t);
      }
    }
    if child, parent :| child in keep && Refers(schema, child, parent) && parent !in keep {
      var path := [child, parent];
      assert Chain(schema, path) && path[0] == child && path[|path| - 1] in schema.Keys - keep;
      assert Truncated(schema, schema.Keys - keep, child);
    }
  }

  /** The computed set is the least one that holds the preserved tables and is spared, so nothing less than
      what it keeps can be kept, and everything else can be emptied. */
  lemma LeastSparedSet(schema: Schema, preserve: set<Table>, keep: set<Table>, other: set<Table>)
    requires Intact(schema) && Forced(schema, preserve, keep)
    requires preserve <= other && forall t :: t in other ==> !Truncated(schema, schema.Keys - other, t)
    ensures keep <= other
  {
    SparedExactly(schema, other);
  }

  // ---------------------------------------------------------------- removing disabled users

  /** The number of rows of each table, and how many rows of "users" are of inactive users. */
  datatype Content = Content(rows: map<Table, nat>, inactive: nat)

  ghost predicate Proper(schema: Schema, c: Content) {
    c.rows.Keys == schema.Keys && ("users" in c.rows ==> c.inactive <= c.rows["users"])
  }

  /** The content after every table outside `keep` was truncated. */
  ghost predicate Emptied(keep: set<Table>, before: Content, after: Content) {
    && after.rows.Keys == before.rows.Keys && after.inactive == before.inactive
    && forall t :: t in before.rows ==> after.rows[t] == if t in keep then before.rows[t] else 0
  }

  /** A table of the set refers to "users", so that one of its rows can stand in the way of a deletion there. */
  predicate ReferredToBy(schema: Schema, tables: set<Table>) {
    exists child :: child in tables && Refers(schema, child, "users")
  }

  /** A chain of references from "users" back to itself. */
  ghost predicate SelfReferring(schema: Schema) {
    exists path :: Chain(schema, path) && |path| >= 2 && path[0] == "users" == path[|path| - 1]
  }

  /** Deleting the inactive users: their rows go. Where deletion cascades, rows of tables with a chain of
      references to "users" may go with them; no other row does, and without an inactive user none. */
  ghost predicate Purged(schema: Schema, before: Content, after: Content) {
    && after.rows.Keys == before.rows.Keys && "users" in before.rows && after.inactive == 0
    && (forall t :: t in before.rows ==> after.rows[t] <= before.rows[t])
    && (forall t :: t in before.rows && !Truncated(schema, {"users"}, t) ==> after.rows[t] == before.rows[t])
    && after.rows["users"] + before.inactive <= before.rows["users"]
    && (!SelfReferring(schema) ==> after.rows["users"] + before.inactive == before.rows["users"])
    && (before.inactive == 0 ==> after.rows == before.rows)
  }

  /** What a confirmed run leaves, with or without the removal of disabled users. */
  ghost predicate ResetTo(schema: Schema, keep: set<Table>, before: Content, removeDisabled: bool, after: Content) {
    if removeDisabled then exists middle :: Emptied(keep, before, middle) && Purged(schema, middle, after)
    else Emptied(keep, before, after)
  }

  /** No table that the script says it preserves loses a row. */
  ghost predicate NothingKeptIsLost(keep: set<Table>, before: Content, after: Content)
    requires after.rows.Keys == before.rows.Keys
  {
    forall t :: t in keep && t in before.rows ==> after.rows[t] == before.rows[t]
  }

  lemma PlainPurge(schema: Schema, before: Content)
    requires Proper(schema, before) && "users" in schema
    ensures var rows := before.rows["users" := before.rows["users"] - before.inactive];
            Purged(schema, before, Content(rows, 0))
  {
    var path := ["users"];
    assert Chain(schema, path) && path[0] == "users" && path[|path| - 1] in {"users"};
    assert before.inactive == 0 ==> before.rows["users" := before.rows["users"] - before.inactive] == before.rows;
  }

  lemma ResetIsProper(schema: Schema, keep: set<Table>, before: Content, removeDisabled: bool, after: Content)
    requires Proper(schema, before) && "users" in keep && ResetTo(schema, keep, before, removeDisabled, after)
    ensures Proper(schema, after)
    ensures forall t :: t in schema && t !in keep ==> after.rows[t] == 0
  {
    if removeDisabled {
      var middle :| Emptied(keep, before, middle) && Purged(schema, middle, after);
    }
  }

  /** A confirmed run preserves every row of the kept tables exactly when it is not asked to remove disabled
      users, or there is none. */
  lemma KeptTablesLoseNothingExactly(schema: Schema, keep: set<Table>, before: Content, removeDisabled: bool,
                                     after: Content)
    requires Proper(schema, before) && "users" in keep && keep <= schema.Keys
    requires ResetTo(schema, keep, before, removeDisabled, after)
    ensures after.rows.Keys == before.rows.Keys
    ensures NothingKeptIsLost(keep, before, after) <==> !removeDisabled || before.inactive == 0
  {
    if removeDisabled {
      var middle :| Emptied(keep, before, middle) && Purged(schema, middle, after);
      assert middle.rows["users"] == before.rows["users"];
    }
  }

  /** Even then, a kept table loses rows only if it is "users" or refers to it through some chain. */
  lemma OnlyUsersAndTheirChildrenLose(schema: Schema, keep: set<Table>, before: Content, removeDisabled: bool,
                                      after: Content, t: Table)
    requires Proper(schema, before) && ResetTo(schema, keep, before, removeDisabled, after)
    requires t in keep && t in schema && after.rows[t] != before.rows[t]
    ensures Truncated(schema, {"users"}, t) && removeDisabled
  {
    if removeDisabled {
      var middle :| Emptied(keep, before, middle) && Purged(schema, middle, after);
      assert middle.rows[t] == before.rows[t];
    }
  }

  lemma FirstLink(schema: Schema, path: seq<Table>)
    requires Chain(schema, path)
    ensures |path| >= 2 ==> Refers(schema, path[0], path[1])
  {
  }

  /** Without foreign keys, exactly the inactive users are lost. */
  lemma WithoutReferences(schema: Schema, keep: set<Table>, before: Content, after: Content)
    requires forall child, parent :: !Refers(schema, child, parent)
    requires Proper(schema, before) && "users" in keep && ResetTo(schema, keep, before, true, after)
    ensures after.rows["users"] == before.rows["users"] - before.inactive && after.inactive == 0
    ensures forall t :: t in keep && t in schema && t != "users" ==> after.rows[t] == before.rows[t]
  {
    var middle :| Emptied(keep, before, middle) && Purged(schema, middle, after);
    forall path | Chain(schema, path)
      ensures |path| == 1
    {
      FirstLink(schema, path);
    }
    forall t | t in keep && t in schema && t != "users"
      ensures after.rows[t] == before.rows[t]
    {
      if path :| Chain(schema, path) && path[0] == t && path[|path| - 1] in {"users"} {
        assert |path| == 1;
      }
    }
  }

  /** The preserved tables and one other, without foreign keys and with two rows each; one user is disabled. */
  function SmallSchema(): Schema {
    map t | t in PRESERVE + {"jobs"} :: []
  }

  function SmallContent(): Content {
    Content(map t | t in PRESERVE + {"jobs"} :: 2, 1)
  }

  /** A confirmed run with the flag leaves one user, although "users" is a preserved table. */
  lemma DisabledUserIsLost()
    ensures "users" in PRESERVE && PRESERVE <= SmallSchema().Keys && Proper(SmallSchema(), SmallContent())
    ensures forall after :: ResetTo(SmallSchema(), PRESERVE, SmallContent(), true, after) ==>
                              "users" in after.rows && after.rows["users"] == 1 && SmallContent().rows["users"] == 2
  {
    forall after | ResetTo(SmallSchema(), PRESERVE, SmallContent(), true, after)
      ensures "users" in after.rows && after.rows["users"] == 1
    {
      WithoutReferences(SmallSchema(), PRESERVE, SmallContent(), after);
    }
  }

  // ---------------------------------------------------------------- the script

  datatype Outcome =
    | Preview
    | Reset
    | NoSuchTable(table: Table)   // raised while the tables are inspected
    | NothingToTruncate           // the statement without tables is a syntax error
    | DeletionFailed              // a kept row still refers to a disabled user

  class Database {
    const schema: Schema
    ghost var rows: map<Table, nat>
    var inactive: nat

    ghost function Now(): Content
      reads this
    {
      Content(rows, inactive)
    }

    ghost predicate Valid()
      reads this
    {
      Proper(schema, Now())
    }

    constructor (schema: Schema, ghost rows: map<Table, nat>, inactive: nat)
      requires Proper(schema, Content(rows, inactive))
      ensures Valid() && this.schema == schema && Now() == Content(rows, inactive)
    {
      this.schema, this.rows, this.inactive := schema, rows, inactive;
    }

    ghost method TruncateCascade(targets: set<Table>)
      requires Valid() && !Truncated(schema, targets, "users")
      modifies this`rows
      ensures Valid() && rows.Keys == old(rows).Keys
      ensures forall t :: t in rows ==> rows[t] == if Truncated(schema, targets, t) then 0 else old(rows)[t]
    {
      rows := map t | t in rows :: if Truncated(schema, targets, t) then 0 else rows[t];
    }

    /** Deletes the inactive users, and whatever rows the foreign keys delete along with them. */
    method DeleteDisabledUsers()
      requires Valid() && "users" in schema
      modifies this
      ensures Valid() && Purged(schema, old(Now()), Now())
    {
      ghost var left: map<Table, nat> := *;
      if !Purged(schema, Now(), Content(left, 0)) {
        PlainPurge(schema, Now());
        left := rows["users" := rows["users"] - inactive];
      }
      rows := left;
      inactive := 0;
    }

    /** The transaction: the truncation, and the removal of disabled users if it is asked for. */
    method Execute(keep: set<Table>, ghost targets: set<Table>, removeDisabled: bool) returns (committed: bool)
      requires Valid() && "users" in keep && keep <= schema.Keys
      requires forall t :: t in schema ==> (Truncated(schema, targets, t) <==> t !in keep)
      modifies this
      ensures Valid()
      ensures if committed then ResetTo(schema, keep, old(Now()), removeDisabled, Now())
              else Now() == old(Now()) && removeDisabled && old(inactive) > 0 && ReferredToBy(schema, keep)
    {
      TruncateCascade(targets);
      assert Emptied(keep, old(Now()), Now());
      if removeDisabled {
        var refused: bool := *;
        if refused && inactive > 0 && ReferredToBy(schema, keep) {
          rows := old(rows);
          return false;
        }
        DeleteDisabledUsers();
      }
      committed := true;
    }

    /** Without the exact confirmation nothing changes. With it, every table outside the preserved closure is
        emptied and no table of the closure loses a row, except for what the removal of disabled users takes. If
        a kept row stands in the way of that removal, the transaction is rolled back, the truncation included. */
    method ResetOperationalData(confirm: string, removeDisabled: bool) returns (outcome: Outcome, keep: set<Table>)
      requires Valid()
      modifies this
      ensures Valid() && (!outcome.Reset? ==> Now() == old(Now()))
      ensures outcome.Preview? ==> confirm != "RESET-HIOP-DATA"
      ensures outcome.NothingToTruncate? ==> confirm == "RESET-HIOP-DATA" && keep == schema.Keys
      ensures outcome.Reset? ==> confirm == "RESET-HIOP-DATA" && PRESERVE <= keep <= schema.Keys && keep != schema.Keys
                                 && Closed(schema, keep) && Forced(schema, PRESERVE, keep)
                                 && ResetTo(schema, keep, old(Now()), removeDisabled, Now())
      ensures outcome.Reset? ==>
                && "alembic_version" in keep && "users" in keep && "system_settings" in keep
                && "automation_actions" in keep && "change_categories" in keep && "change_types" in keep
                && "ci_classes" in keep && "ci_lifecycles" in keep && "ci_relationship_types" in keep
                && "ci_statuses" in keep && "ci_types" in keep && "discovery_oui_vendors" in keep
      ensures outcome.Reset? ==>
                && rows.Keys == old(rows).Keys
                && (forall t :: t in schema && t !in keep ==> rows[t] == 0)
                && (NothingKeptIsLost(keep, old(Now()), Now()) <==> !removeDisabled || old(inactive) == 0)
      ensures outcome.DeletionFailed? ==> confirm == "RESET-HIOP-DATA" && removeDisabled && old(inactive) > 0
                                          && ReferredToBy(schema, keep)
      ensures outcome.NoSuchTable? ==> outcome.table !in schema && Forced(schema, PRESERVE, {outcome.table})
    {
      var r := PreservedTables(schema, PRESERVE);
      if r.Err? {
        return NoSuchTable(r.error), {};
      }
      keep := r.value;
      if confirm != "RESET-HIOP-DATA" {
        return Preview, keep;
      }
      var targets := schema.Keys - keep;
      if targets == {} {
        return NothingToTruncate, keep;
      }
      forall t | t in schema
        ensures Truncated(schema, targets, t) <==> t !in keep
      {
        CascadeIsExact(schema, keep, t);
      }
      var committed := Execute(keep, targets, removeDisabled);
      outcome := if committed then Reset else DeletionFailed;
      if committed {
        ResetIsProper(schema, keep, old(Now()), removeDisabled, Now());
        KeptTablesLoseNothingExactly(schema, keep, old(Now()), removeDisabled, Now());
      }
    }
  }
}
