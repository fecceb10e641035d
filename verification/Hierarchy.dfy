/** The organisation hierarchy: properties, buildings, floors, rooms, departments and network zones, as the
    create, update and deactivate requests of organisations change it. */
module Hierarchy {
  import opened Wrappers
  import opened Text

  type Id = int
  type Organization = int

  datatype Kind = Properties | Buildings | Floors | Rooms | Departments | NetworkZones

  /** `details` stands for code, address, CIDR and VLAN. A network zone has no organisation of its own. */
  datatype Row = Row(
    kind: Kind, name: string, active: bool, parent: Option<Id>, organization: Option<Organization>, details: string)

  type Table = map<Id, Row>

  function ParentKind(kind: Kind): Option<Kind> {
    match kind
    case Properties => None
    case Buildings => Some(Properties)
    case Floors => Some(Buildings)
    case Rooms => Some(Floors)
    case Departments => Some(Properties)
    case NetworkZones => Some(Properties)
  }

  /** The validated request body; for properties the parent is ignored. */
  datatype Input = Input(name: string, active: bool, parent: Option<Id>, details: string)

  datatype Outcome =
    | Success
    | NotFound            // 404
    | ParentMissing       // 422
    | NameConflict        // 409
    | Rejected            // a database constraint outside the model; the transaction is rolled back

  // ---------------------------------------------------------------- the queries

  predicate ParentAllowed(rows: Table, kind: Kind, parent: Option<Id>, organization: Organization) {
    parent.None? ||
    (parent.value in rows && Some(rows[parent.value].kind) == ParentKind(kind)
     && rows[parent.value].organization == Some(organization))
  }

  /** The organisation a row counts for: its own, and for a network zone that of its property, if it has one. */
  function Owner(rows: Table, row: Row): Option<Organization> {
    if row.kind != NetworkZones then row.organization
    else if row.parent.Some? && row.parent.value in rows && rows[row.parent.value].kind == Properties
    then rows[row.parent.value].organization
    else None
  }

  predicate Owns(rows: Table, organization: Organization, kind: Kind, id: Id) {
    id in rows && rows[id].kind == kind && Owner(rows, rows[id]) == Some(organization)
  }

  /** The stored name equals the given one but for upper and lower case. */
  predicate SameName(row: Row, kind: Kind, name: string) {
    row.kind == kind && Lower(row.name) == Lower(name)
  }

  function NewRow(kind: Kind, input: Input, organization: Organization): Row {
    Row(kind, Strip(input.name), input.active,
        if kind == Properties then None else input.parent,
        if kind == NetworkZones then None else Some(organization),
        input.details)
  }

  function ChangedRow(row: Row, input: Input): Row {
    row.(
    name := Strip(input.name), active := input.active,
    parent := if row.kind == Properties then row.parent else input.parent, details := input.details)
  }

  // ---------------------------------------------------------------- what the queries come to

  /** Which kind of row may be the parent of which. */
  predicate MayHold(parent: Kind, child: Kind) {
    || (parent == Properties && (child == Buildings || child == Departments || child == NetworkZones))
    || (parent == Buildings && child == Floors) || (parent == Floors && child == Rooms)
  }

  /** A parent is accepted exactly if it is none, or a row of the right kind in the requesting organisation. */
  lemma ParentAllowedExactly(rows: Table, kind: Kind, parent: Option<Id>, organization: Organization)
    ensures ParentAllowed(rows, kind, parent, organization) <==>
            parent == None
            || (parent.value in rows && MayHold(rows[parent.value].kind, kind)
                && rows[parent.value].organization == Some(organization))
  {
  }

  /** A row is the organisation's if it says so; a network zone, if its property does. */
  lemma OwnsExactly(rows: Table, organization: Organization, kind: Kind, id: Id)
    ensures Owns(rows, organization, kind, id) <==>
            && id in rows && rows[id].kind == kind
            && if kind != NetworkZones then rows[id].organization == Some(organization)
               else rows[id].parent.Some? && rows[id].parent.value in rows
                    && rows[rows[id].parent.value].kind == Properties
                    && rows[rows[id].parent.value].organization == Some(organization)
  {
  }

  /** Two names clash exactly if they are of one kind and differ at most in upper and lower case. */
  lemma SameNameExactly(row: Row, kind: Kind, name: string)
    ensures SameName(row, kind, name) <==>
            row.kind == kind && |row.name| == |name|
            && forall i :: 0 <= i < |name| ==> SameLetter(row.name[i], name[i])
  {
    LowerExactly(row.name, name);
  }

  // ---------------------------------------------------------------- consistency

  /** A row's parent exists, has the right kind, and belongs to the row's own organisation. */
  ghost predicate ParentConsistent(rows: Table, row: Row) {
    row.parent.Some? ==>
      && row.parent.value in rows && Some(rows[row.parent.value].kind) == ParentKind(row.kind)
      && (row.kind != NetworkZones ==> rows[row.parent.value].organization == row.organization)
  }

  /** Stored names are trimmed, and no two rows of one kind and one organisation have the same name in lower case. */
  ghost predicate NamesUnique(rows: Table) {
    && (forall id :: id in rows ==> Strip(rows[id].name) == rows[id].name)
    && forall a, b :: a in rows && b in rows && a != b && rows[a].kind == rows[b].kind
                      && Owner(rows, rows[a]).Some? && Owner(rows, rows[a]) == Owner(rows, rows[b])
                      ==> Lower(rows[a].name) != Lower(rows[b].name)
  }

  ghost predicate Consistent(rows: Table) {
    (forall id :: id in rows ==> ParentConsistent(rows, rows[id])) && NamesUnique(rows)
  }

  /** Changing one row, in its name, state, parent or details only, changes no other row's owner. */
  lemma OwnersKept(rows: Table, id: Id, row: Row, other: Row)
    requires id in rows ==> row.kind == rows[id].kind && row.organization == rows[id].organization
    requires id !in rows ==> other.parent != Some(id)
    ensures Owner(rows[id := row], other) == Owner(rows, other)
  {
  }

  lemma CreateKeepsConsistent(rows: Table, kind: Kind, input: Input, organization: Organization, id: Id)
    requires Consistent(rows) && id !in rows
    requires kind == Properties || ParentAllowed(rows, kind, input.parent, organization)
    requires forall other :: Owns(rows, organization, kind, other) ==> !SameName(rows[other], kind, Strip(input.name))
    ensures Consistent(rows[id := NewRow(kind, input, organization)])
  {
    var row := NewRow(kind, input, organization);
    var after := rows[id := row];
    StripIdempotent(input.name);
    forall other | other in rows
      ensures ParentConsistent(after, after[other]) && Owner(after, after[other]) == Owner(rows, rows[other])
    {
      assert ParentConsistent(rows, rows[other]);
      OwnersKept(rows, id, row, rows[other]);
    }
    assert Owner(after, row) == Some(organization) || Owner(after, row) == None;
    forall other | other in rows && rows[other].kind == kind
                   && Owner(after, row).Some? && Owner(after, row) == Owner(after, after[other])
      ensures Lower(after[other].name) != Lower(row.name)
    {
      assert Owns(rows, organization, kind, other);
    }
  }

  lemma UpdateKeepsConsistent(rows: Table, kind: Kind, input: Input, organization: Organization, id: Id)
    requires Consistent(rows) && Owns(rows, organization, kind, id)
    requires kind == Properties || ParentAllowed(rows, kind, input.parent, organization)
    requires forall other :: other in rows && other != id ==> !SameName(rows[other], kind, Strip(input.name))
    ensures Consistent(rows[id := ChangedRow(rows[id], input)])
  {
    var row := ChangedRow(rows[id], input);
    var after := rows[id := row];
    StripIdempotent(input.name);
    forall other | other in rows && other != id
      ensures ParentConsistent(after, after[other]) && Owner(after, after[other]) == Owner(rows, rows[other])
    {
      assert ParentConsistent(rows, rows[other]);
      OwnersKept(rows, id, row, rows[other]);
    }
    assert ParentConsistent(rows, rows[id]);
    assert ParentConsistent(after, row);
  }

  lemma DeactivateKeepsConsistent(rows: Table, id: Id)
    requires Consistent(rows) && id in rows
    ensures Consistent(rows[id := rows[id].(active := false)])
  {
    var row := rows[id].(active := false);
    var after := rows[id := row];
    forall other | other in rows
      ensures ParentConsistent(after, after[other]) && Owner(after, after[other]) == Owner(rows, rows[other])
    {
      assert ParentConsistent(rows, rows[other]);
      OwnersKept(rows, id, row, rows[other]);
    }
  }

  // ---------------------------------------------------------------- what consistency means along a chain

  /** Each row of the chain names the next as its parent. */
  ghost predicate Lineage(rows: Table, chain: seq<Id>) {
    && chain != [] && (forall i :: 0 <= i < |chain| ==> chain[i] in rows)
    && forall i, j :: 0 <= i < |chain| && 0 <= j < |chain| && j == i + 1 ==> rows[chain[i]].parent == Some(chain[j])
  }

  function Depth(kind: Kind): nat {
    match kind
    case Properties => 0
    case Buildings => 1
    case Departments => 1
    case NetworkZones => 1
    case Floors => 2
    case Rooms => 3
  }

  /** A consistent row has a parent of the one kind that may hold it. */
  lemma ParentsMayHold(rows: Table, id: Id)
    requires Consistent(rows) && id in rows && rows[id].parent.Some?
    ensures rows[id].parent.value in rows && MayHold(rows[rows[id].parent.value].kind, rows[id].kind)
  {
    assert ParentConsistent(rows, rows[id]);
  }

  /** A chain of parents, from a room up to its property, stays in one organisation, goes up one level at each
      step, and so has at most four rows. */
  lemma {:induction false} ChainStaysInOneOrganization(rows: Table, chain: seq<Id>)
    requires Consistent(rows) && Lineage(rows, chain) && rows[chain[0]].kind != NetworkZones
    ensures forall i :: 0 <= i < |chain| ==> rows[chain[i]].organization == rows[chain[0]].organization
    ensures forall i :: 0 <= i < |chain| ==> Depth(rows[chain[i]].kind) == Depth(rows[chain[0]].kind) - i
    ensures |chain| <= 4
  {
    if |chain| > 1 {
      var id := chain[0];
      assert id in rows && rows[id].parent == Some(chain[1]);
      assert ParentConsistent(rows, rows[id]);
      var rest := chain[1..];
      ChainStaysInOneOrganization(rows, rest);
      forall i | 1 <= i < |chain|
        ensures rows[chain[i]].organization == rows[chain[0]].organization
        ensures Depth(rows[chain[i]].kind) == Depth(rows[chain[0]].kind) - i
      {
        assert chain[i] == rest[i - 1];
      }
      assert Depth(rows[chain[|chain| - 1]].kind) == Depth(rows[chain[0]].kind) - (|chain| - 1);
    }
  }

  // ---------------------------------------------------------------- interference between organisations

  /** Some row of the organisation other than `id` has the name. */
  predicate OwnName(rows: Table, organization: Organization, kind: Kind, id: Option<Id>, name: string) {
    exists other :: other in rows && Some(other) != id && Owns(rows, organization, kind, other)
                    && SameName(rows[other], kind, name)
  }

  /** Some row that is not the organisation's has the name. */
  predicate ForeignName(rows: Table, organization: Organization, kind: Kind, name: string) {
    exists other :: other in rows && !Owns(rows, organization, kind, other) && SameName(rows[other], kind, name)
  }

  /** How a creation is answered if the database accepts it. */
  function CreateVerdict(rows: Table, kind: Kind, input: Input, organization: Organization): Outcome {
    if kind != Properties && !ParentAllowed(rows, kind, input.parent, organization) then ParentMissing
    else if OwnName(rows, organization, kind, None, Strip(input.name)) then NameConflict
    else Success
  }

  /** How an update is answered if the database accepts it. */
  function UpdateVerdict(rows: Table, kind: Kind, id: Id, input: Input, organization: Organization): Outcome {
    if !Owns(rows, organization, kind, id) then NotFound
    else if kind != Properties && !ParentAllowed(rows, kind, input.parent, organization) then ParentMissing
    else if exists other :: other in rows && other != id && SameName(rows[other], kind, Strip(input.name))
    then NameConflict
    else Success
  }

  predicate Own(rows: Table, organization: Organization, id: Id) {
    id in rows && Owner(rows, rows[id]) == Some(organization)
  }

  /** The two states differ at most in rows of others. */
  ghost predicate SameOwn(a: Table, b: Table, organization: Organization) {
    forall id :: (Own(a, organization, id) <==> Own(b, organization, id))
                 && (Own(a, organization, id) ==> a[id] == b[id])
  }

  lemma SameOwnNames(a: Table, b: Table, organization: Organization, kind: Kind, id: Option<Id>, name: string)
    requires SameOwn(a, b, organization)
    ensures OwnName(a, organization, kind, id, name) ==> OwnName(b, organization, kind, id, name)
  {
    if other :| other in a && Some(other) != id && Owns(a, organization, kind, other)
                && SameName(a[other], kind, name)
    {
      assert Own(a, organization, other);
      assert other in b && Owns(b, organization, kind, other) && SameName(b[other], kind, name);
    }
  }

  lemma SameOwnParents(a: Table, b: Table, organization: Organization, kind: Kind, parent: Option<Id>)
    requires SameOwn(a, b, organization)
    ensures ParentAllowed(a, kind, parent, organization) ==> ParentAllowed(b, kind, parent, organization)
  {
    if ParentAllowed(a, kind, parent, organization) && parent.Some? {
      assert Own(a, organization, parent.value);
    }
  }

  lemma SameOwnBack(a: Table, b: Table, organization: Organization)
    requires SameOwn(a, b, organization)
    ensures SameOwn(b, a, organization)
  {
    assert forall id :: Own(b, organization, id) <==> Own(a, organization, id);
  }

  /** How a creation is answered does not depend on the rows of others. */
  lemma CreateDoesNotInterfere(a: Table, b: Table, kind: Kind, input: Input, organization: Organization)
    requires SameOwn(a, b, organization)
    ensures CreateVerdict(a, kind, input, organization) == CreateVerdict(b, kind, input, organization)
  {
    SameOwnBack(a, b, organization);
    SameOwnParents(a, b, organization, kind, input.parent);
    SameOwnParents(b, a, organization, kind, input.parent);
    SameOwnNames(a, b, organization, kind, None, Strip(input.name));
    SameOwnNames(b, a, organization, kind, None, Strip(input.name));
  }

  /** An update gets past all checks that look at the organisation's own rows. */
  predicate OwnChecksPass(rows: Table, kind: Kind, id: Id, input: Input, organization: Organization) {
    && Owns(rows, organization, kind, id)
    && (kind == Properties || ParentAllowed(rows, kind, input.parent, organization))
    && !OwnName(rows, organization, kind, Some(id), Strip(input.name))
  }

  lemma UpdateVerdictIs(rows: Table, kind: Kind, id: Id, input: Input, organization: Organization)
    requires OwnChecksPass(rows, kind, id, input, organization)
    ensures UpdateVerdict(rows, kind, id, input, organization)
         == if ForeignName(rows, organization, kind, Strip(input.name)) then NameConflict else Success
  {
    var name := Strip(input.name);
    if other :| other in rows && other != id && SameName(rows[other], kind, name) {
      assert !Owns(rows, organization, kind, other);
    }
    if other :| other in rows && !Owns(rows, organization, kind, other) && SameName(rows[other], kind, name) {
      assert other != id;
    }
  }

  lemma OwnNameIsRefused(rows: Table, kind: Kind, id: Id, input: Input, organization: Organization)
    requires Owns(rows, organization, kind, id) && OwnName(rows, organization, kind, Some(id), Strip(input.name))
    requires kind == Properties || ParentAllowed(rows, kind, input.parent, organization)
    ensures UpdateVerdict(rows, kind, id, input, organization) == NameConflict
  {
    var other :| other in rows && Some(other) != Some(id) && Owns(rows, organization, kind, other)
                 && SameName(rows[other], kind, Strip(input.name));
    assert other != id;
  }

  lemma OwnRefusalIsSame(a: Table, b: Table, kind: Kind, id: Id, input: Input, organization: Organization)
    requires SameOwn(a, b, organization) && !OwnChecksPass(a, kind, id, input, organization)
    ensures UpdateVerdict(a, kind, id, input, organization) == UpdateVerdict(b, kind, id, input, organization)
  {
    SameOwnBack(a, b, organization);
    assert Own(a, organization, id) <==> Own(b, organization, id);
    SameOwnParents(a, b, organization, kind, input.parent);
    SameOwnParents(b, a, organization, kind, input.parent);
    SameOwnNames(a, b, organization, kind, Some(id), Strip(input.name));
    if Owns(a, organization, kind, id) && (kind == Properties || ParentAllowed(a, kind, input.parent, organization)) {
      OwnNameIsRefused(a, kind, id, input, organization);
      OwnNameIsRefused(b, kind, id, input, organization);
    }
  }

  lemma OwnChecksAreSame(a: Table, b: Table, kind: Kind, id: Id, input: Input, organization: Organization)
    requires SameOwn(a, b, organization) && OwnChecksPass(a, kind, id, input, organization)
    ensures OwnChecksPass(b, kind, id, input, organization)
  {
    SameOwnBack(a, b, organization);
    assert Own(a, organization, id);
    SameOwnParents(a, b, organization, kind, input.parent);
    SameOwnNames(b, a, organization, kind, Some(id), Strip(input.name));
  }

  /** How an update is answered depends on the rows of others exactly as far as one of them has the requested name:
      two states with the same rows of the organisation give the same answer exactly if the request fails on these
      rows alone, or a row of others has the name in both or in neither. */
  lemma UpdateInterferesExactly(a: Table, b: Table, kind: Kind, id: Id, input: Input, organization: Organization)
    requires SameOwn(a, b, organization)
    ensures UpdateVerdict(a, kind, id, input, organization) == UpdateVerdict(b, kind, id, input, organization)
       <==> (OwnChecksPass(a, kind, id, input, organization) ==>
               (ForeignName(a, organization, kind, Strip(input.name))
                <==> ForeignName(b, organization, kind, Strip(input.name))))
  {
    if OwnChecksPass(a, kind, id, input, organization) {
      OwnChecksAreSame(a, b, kind, id, input, organization);
      UpdateVerdictIs(a, kind, id, input, organization);
      UpdateVerdictIs(b, kind, id, input, organization);
    } else {
      OwnRefusalIsSame(a, b, kind, id, input, organization);
    }
  }

  /** A property cannot be renamed to a name that another organisation uses, though it could be created with it. */
  lemma RenameIsRefused()
    ensures var mine := Row(Properties, "n", true, None, Some(1), "");
            var theirs := Row(Properties, "s", true, None, Some(2), "");
            var input := Input("s", true, None, "");
            && UpdateVerdict(map[1 := mine], Properties, 1, input, 1) == Success
            && UpdateVerdict(map[1 := mine, 2 := theirs], Properties, 1, input, 1) == NameConflict
            && CreateVerdict(map[1 := mine, 2 := theirs], Properties, input, 1) == Success
  {
    assert Strip("s") == "s" && Lower("s")[0] == 's' && Lower("n")[0] == 'n';
    var mine := Row(Properties, "n", true, None, Some(1), "");
    var rows := map[1 := mine, 2 := Row(Properties, "s", true, None, Some(2), "")];
    assert 2 in rows && 2 != 1 && SameName(rows[2], Properties, Strip("s"));
  }

  // ---------------------------------------------------------------- the requests

  /** Rows of other organisations, and rows without one, are as they were. */
  ghost predicate OthersUntouched(before: Table, after: Table, organization: Organization) {
    forall id :: id in before && Owner(before, before[id]) != Some(organization) ==>
                   id in after && after[id] == before[id]
  }

  class Store {
    var rows: Table

    /** An invariant over every run of requests. */
    ghost predicate Valid()
      reads this
    {
      Consistent(rows)
    }

    constructor (rows: Table)
      requires Consistent(rows)
      ensures Valid() && this.rows == rows
    {
      this.rows := rows;
    }

    /** `id` is the new random identifier. */
    method Create(kind: Kind, input: Input, organization: Organization, id: Id) returns (outcome: Outcome)
      requires Valid() && id !in rows
      modifies this
      ensures Valid() && OthersUntouched(old(rows), rows, organization)
      ensures outcome == ParentMissing <==>
              kind != Properties && !ParentAllowed(old(rows), kind, input.parent, organization)
      ensures outcome == NameConflict <==>
              outcome != ParentMissing
              && exists other :: Owns(old(rows), organization, kind, other)
                                 && SameName(old(rows)[other], kind, Strip(input.name))
      ensures outcome == Success ==>
                && id in rows
                && rows[id].kind == kind && rows[id].name == Strip(input.name) && rows[id].active == input.active
                && rows[id].parent == (if kind == Properties then None else input.parent)
                && rows[id].organization == (if kind == NetworkZones then None else Some(organization))
                && rows[id].details == input.details
      ensures if outcome == Rejected then CreateVerdict(old(rows), kind, input, organization) == Success
              else outcome == CreateVerdict(old(rows), kind, input, organization)
      ensures rows == if outcome == Success then old(rows)[id := NewRow(kind, input, organization)] else old(rows)
      ensures outcome != NotFound
    {
      if kind != Properties && !ParentAllowed(rows, kind, input.parent, organization) {
        return ParentMissing;
      }
      var name := Strip(input.name);
      if exists other :: other in rows && Owns(rows, organization, kind, other) && SameName(rows[other], kind, name) {
        return NameConflict;
      }
      var accepted: bool := *;
      if !accepted {
        return Rejected;
      }
      CreateKeepsConsistent(rows, kind, input, organization, id);
      var parent := if kind == Properties then None else input.parent;
      var owner := if kind == NetworkZones then None else Some(organization);
      rows := rows[id := Row(kind, name, input.active, parent, owner, input.details)];
      outcome := Success;
    }

    /** Only a row of the requesting organisation is found. A new name must differ from the names of all other
        rows of its kind, those of other organisations included. */
    method Update(kind: Kind, id: Id, input: Input, organization: Organization) returns (outcome: Outcome)
      requires Valid()
      modifies this
      ensures Valid() && OthersUntouched(old(rows), rows, organization)
      ensures outcome == NotFound <==> !Owns(old(rows), organization, kind, id)
      ensures outcome == ParentMissing <==>
              outcome != NotFound && kind != Properties && !ParentAllowed(old(rows), kind, input.parent, organization)
      ensures outcome == NameConflict <==>
              outcome != NotFound && outcome != ParentMissing
              && exists other :: other in old(rows) && other != id
                                 && SameName(old(rows)[other], kind, Strip(input.name))
      ensures outcome == Success ==>
                && id in rows && id in old(rows)
                && rows[id].name == Strip(input.name) && rows[id].active == input.active
                && rows[id].parent == (if kind == Properties then old(rows)[id].parent else input.parent)
                && rows[id].details == input.details
                && rows[id].kind == kind && rows[id].organization == old(rows)[id].organization
      ensures if outcome == Rejected then UpdateVerdict(old(rows), kind, id, input, organization) == Success
              else outcome == UpdateVerdict(old(rows), kind, id, input, organization)
      ensures rows == if outcome == Success then old(rows)[id := ChangedRow(old(rows)[id], input)] else old(rows)
    {
      if !Owns(rows, organization, kind, id) {
        return NotFound;
      }
      if kind != Properties && !ParentAllowed(rows, kind, input.parent, organization) {
        return ParentMissing;
      }
      if exists other :: other in rows && other != id && SameName(rows[other], kind, Strip(input.name)) {
        return NameConflict;
      }
      var accepted: bool := *;
      if !accepted {
        return Rejected;
      }
      UpdateKeepsConsistent(rows, kind, input, organization, id);
      var row := rows[id];
      row := row.(name := Strip(input.name));
      row := row.(active := input.active);
      row := row.(details := input.details);
      if kind != Properties {
        row := row.(parent := input.parent);
      }
      rows := rows[id := row];
      outcome := Success;
    }

    method Deactivate(kind: Kind, id: Id, organization: Organization) returns (outcome: Outcome)
      requires Valid()
      modifies this
      ensures Valid() && OthersUntouched(old(rows), rows, organization)
      ensures outcome == if Owns(old(rows), organization, kind, id) then Success else NotFound
      ensures rows == if outcome == Success then old(rows)[id := old(rows)[id].(active := false)] else old(rows)
    {
      if !Owns(rows, organization, kind, id) {
        return NotFound;
      }
      DeactivateKeepsConsistent(rows, id);
      rows := rows[id := rows[id].(active := false)];
      outcome := Success;
    }
  }
}
