/**
 * The edits of the ACL editor. Every edit copies the caller's ACL into a
 * fresh draft, adds or deletes roles in the draft's two sets in place and
 * hands the draft on; the caller's ACL is never touched.
 */
module AclEdit {
  import opened Roles
  import opened GroupDag
  import opened AclRoles

  /** The two entries of the action menu of a row. */
  datatype Action = Read | Write

  /** What the user can do in a column. */
  datatype Edit =
    | RemoveRole(role: Role)
      // the cross button of a row
    | Create(input: string)
      // a typed-in role accepted as a new option
    | Select(choice: seq<SelectOption>, selection: seq<SelectOption>)
      // the select's new value `choice`, given the options shown so far
    | SetAction(role: Role, action: Action)
      // an entry of the action menu of a row

  /** The mutable copy an edit works on. */
  class AclDraft {
    var readRoles: set<Role>
    var writeRoles: set<Role>

    /** Copies both sets of `acl`. */
    constructor Copy(acl: Acl)
      ensures readRoles == acl.readRoles && writeRoles == acl.writeRoles
    {
      readRoles := acl.readRoles;
      writeRoles := acl.writeRoles;
    }

    function Value(): (acl: Acl)
      reads this
      ensures acl.readRoles == readRoles && acl.writeRoles == writeRoles
    {
      Acl(readRoles, writeRoles)
    }

    /** Deletes `role` from both sets. */
    method Remove(role: Role)
      modifies this
      ensures readRoles == old(readRoles) - {role}
      ensures writeRoles == old(writeRoles) - {role}
    {
      readRoles := readRoles - {role};
      writeRoles := writeRoles - {role};
    }

    /** Adds `role` to the read set. */
    method AddRead(role: Role)
      modifies this
      ensures readRoles == old(readRoles) + {role}
      ensures writeRoles == old(writeRoles)
    {
      readRoles := readRoles + {role};
    }

    /** Adds `role` to the write set. */
    method AddWrite(role: Role)
      modifies this
      ensures readRoles == old(readRoles)
      ensures writeRoles == old(writeRoles) + {role}
    {
      writeRoles := writeRoles + {role};
    }

    /** Deletes `role` from the write set. */
    method DeleteWrite(role: Role)
      modifies this
      ensures readRoles == old(readRoles)
      ensures writeRoles == old(writeRoles) - {role}
    {
      writeRoles := writeRoles - {role};
    }

    /** Adds, for reading, the value of every chosen option that is not already shown. */
    method AddChosen(choice: seq<SelectOption>, selection: seq<SelectOption>)
      modifies this
      ensures readRoles == old(readRoles) + Chosen(choice, selection)
      ensures writeRoles == old(writeRoles)
    {
      for i := 0 to |choice|
        invariant readRoles == old(readRoles) + Chosen(choice[..i], selection)
        invariant writeRoles == old(writeRoles)
      {
        assert choice[..i + 1] == choice[..i] + [choice[i]];
        if choice[i] !in selection {
          readRoles := readRoles + {choice[i].value};
        }
      }
      assert choice[..|choice|] == choice;
    }
  }

  /** The roles an edit of the select adds: values of chosen options not yet shown. */
  ghost function Chosen(choice: seq<SelectOption>, selection: seq<SelectOption>): set<Role> {
    set o | o in choice && o !in selection :: o.value
  }

  /** The ACL after an edit. */
  ghost function Apply(acl: Acl, e: Edit): Acl {
    match e
    case RemoveRole(role) => Acl(acl.readRoles - {role}, acl.writeRoles - {role})
    case Create(input) => Acl(acl.readRoles + {input}, acl.writeRoles)
    case Select(choice, selection) => Acl(acl.readRoles + Chosen(choice, selection), acl.writeRoles)
    case SetAction(role, action) =>
      if action == Write then Acl(acl.readRoles, acl.writeRoles + {role})
      else Acl(acl.readRoles, acl.writeRoles - {role})
  }

  /** Runs one edit on a fresh copy of `acl` and returns the copy's new value. */
  method Change(acl: Acl, e: Edit) returns (next: Acl)
    ensures next == Apply(acl, e)
  {
    var draft := new AclDraft.Copy(acl);
    match e {
      case RemoveRole(role) =>
        draft.Remove(role);
      case Create(input) =>
        draft.AddRead(input);
      case Select(choice, selection) =>
        draft.AddChosen(choice, selection);
      case SetAction(role, action) =>
        if action == Write {
          draft.AddWrite(role);
        } else {
          draft.DeleteWrite(role);
        }
    }
    next := draft.Value();
  }

  /** The roles an edit may change: all others keep their read and write access. */
  ghost function Touched(e: Edit): set<Role> {
    match e
    case RemoveRole(role) => {role}
    case Create(input) => {input}
    case Select(choice, selection) => Chosen(choice, selection)
    case SetAction(role, _) => {role}
  }

  /** Nothing outside the touched roles changes. */
  lemma OthersUnchanged(acl: Acl, e: Edit, r: Role)
    requires r !in Touched(e)
    ensures r in Apply(acl, e).readRoles <==> r in acl.readRoles
    ensures r in Apply(acl, e).writeRoles <==> r in acl.writeRoles
  {
  }

  /** What each edit does to the roles it touches. */
  lemma TouchedRoles(acl: Acl, e: Edit, r: Role)
    requires r in Touched(e)
    ensures e.RemoveRole? ==> r !in Apply(acl, e).readRoles && r !in Apply(acl, e).writeRoles
    ensures e.Create? || e.Select? ==>
      r in Apply(acl, e).readRoles && (r in Apply(acl, e).writeRoles <==> r in acl.writeRoles)
    ensures e.SetAction? ==> (r in Apply(acl, e).readRoles <==> r in acl.readRoles)
    ensures e.SetAction? ==> (r in Apply(acl, e).writeRoles <==> e.action == Write)
  {
  }

  /** Every role with write access also has read access. */
  ghost predicate WriteImpliesRead(acl: Acl) {
    acl.writeRoles <= acl.readRoles
  }

  /** The roles shown as rows: all roles with any access. */
  ghost function Shown(acl: Acl): set<Role> {
    acl.readRoles + acl.writeRoles
  }

  /**
   * The editor keeps write access within read access: the action menu is only
   * offered for rows that are shown.
   */
  lemma EditKeepsWriteImpliesRead(acl: Acl, e: Edit)
    requires WriteImpliesRead(acl)
    requires e.SetAction? ==> e.role in Shown(acl)
    ensures WriteImpliesRead(Apply(acl, e))
  {
  }

  /** Under that invariant, switching a shown row between read and write keeps it shown. */
  lemma SetActionKeepsRow(acl: Acl, role: Role, action: Action)
    requires WriteImpliesRead(acl) && role in Shown(acl)
    ensures role in Shown(Apply(acl, SetAction(role, action)))
  {
  }

  /**
   * Without the invariant a row can vanish: a role that only has write access
   * disappears from the list when it is switched to read.
   */
  lemma WriteOnlyRowVanishes(role: Role)
    ensures var acl := Acl({}, {role});
      role in Shown(acl) && role !in Shown(Apply(acl, SetAction(role, Read)))
  {
  }

  /** Applying the same edit twice is the same as applying it once. */
  lemma ApplyIdempotent(acl: Acl, e: Edit)
    ensures Apply(Apply(acl, e), e) == Apply(acl, e)
  {
  }

  /** Whether the cross button of a row is enabled. */
  predicate CanRemove(role: Role, userIsRequired: bool, userRole: string) {
    role != ADMIN && !(userIsRequired && role == userRole)
  }

  /** Whether a row shows a fixed "write" instead of the action menu. */
  predicate FixedWrite(role: Role, userIsRequired: bool, userRole: string) {
    role == ADMIN || role == USER_ADMIN || (userIsRequired && role == userRole)
  }

  /** The edits the rows of the editor offer. */
  predicate Offered(e: Edit, userIsRequired: bool, userRole: string) {
    match e
    case RemoveRole(role) => CanRemove(role, userIsRequired, userRole)
    case SetAction(role, _) => !FixedWrite(role, userIsRequired, userRole)
    case _ => true
  }

  /**
   * The offered edits never take access away from the admin role, nor from the
   * current user when a user is required.
   */
  lemma OfferedKeepsProtectedRoles(acl: Acl, e: Edit, userIsRequired: bool, userRole: string, r: Role)
    requires Offered(e, userIsRequired, userRole)
    requires r == ADMIN || (userIsRequired && r == userRole)
    ensures r in acl.readRoles ==> r in Apply(acl, e).readRoles
    ensures r in acl.writeRoles ==> r in Apply(acl, e).writeRoles
  {
  }
}
