/** The role lattice of an organization (apps/control-api/src/authz/permissions.ts:253-354). */
module Roles {
  import opened Domain
  import opened Secrets

  datatype Role = Owner | Admin | Developer | Viewer | Billing

  function Rank(r: Role): nat {
    match r
    case Owner => 40
    case Admin => 30
    case Developer => 20
    case Viewer => 10
    case Billing => 10
  }

  /** The `members.write` row of the permission matrix. */
  predicate MayWriteMembers(r: Role) { r == Owner || r == Admin }

  predicate MayAssignRole(actor: Role, target: Role) {
    MayWriteMembers(actor) && Rank(target) <= Rank(actor)
  }

  datatype RoleChange = RoleChange(
    actorRole: Role, actorMembership: Id, targetMembership: Id, currentRole: Role, ownerCount: nat)

  /** `assertOwnerSurvives`; `None` is a removal. */
  function OwnerSurvives(current: Role, next: Option<Role>, ownerCount: nat): Option<Error> {
    if current != Owner || next == Some(Owner) then None
    else if ownerCount <= 1 then Some(Conflict)
    else None
  }

  /** `assertRoleChangeAllowed`. */
  function CheckRoleChange(c: RoleChange, next: Role): Option<Error> {
    if !MayWriteMembers(c.actorRole) then Some(Forbidden)
    else if c.actorMembership == c.targetMembership then Some(Forbidden)
    else if !MayAssignRole(c.actorRole, next) then Some(Forbidden)
    else if !MayAssignRole(c.actorRole, c.currentRole) then Some(Forbidden)
    else OwnerSurvives(c.currentRole, Some(next), c.ownerCount)
  }

  /** `assertMemberRemovalAllowed`. */
  function CheckRemoval(c: RoleChange): Option<Error> {
    if !MayWriteMembers(c.actorRole) then Some(Forbidden)
    else if c.actorMembership == c.targetMembership then Some(Forbidden)
    else if !MayAssignRole(c.actorRole, c.currentRole) then Some(Forbidden)
    else OwnerSurvives(c.currentRole, None, c.ownerCount)
  }

  /** Only an owner touches ownership, nobody touches their own row, and the last owner stays. */
  lemma LatticeIsExact(c: RoleChange, next: Role)
    ensures CheckRoleChange(c, next).None?
            <==> && c.actorMembership != c.targetMembership
                 && (c.actorRole == Owner || (c.actorRole == Admin && next != Owner && c.currentRole != Owner))
                 && (c.currentRole == Owner && next != Owner ==> c.ownerCount >= 2)
    ensures CheckRemoval(c).None?
            <==> && c.actorMembership != c.targetMembership
                 && (c.actorRole == Owner || (c.actorRole == Admin && c.currentRole != Owner))
                 && (c.currentRole == Owner ==> c.ownerCount >= 2)
  {
  }

  /** A refusal is a conflict exactly when all that stands against it is that no owner would remain. */
  lemma RefusalIsExact(c: RoleChange, next: Role)
    ensures CheckRoleChange(c, next).Some? ==>
              CheckRoleChange(c, next).value
              == if && c.actorMembership != c.targetMembership
                    && (c.actorRole == Owner || (c.actorRole == Admin && next != Owner && c.currentRole != Owner))
                 then Conflict else Forbidden
    ensures CheckRemoval(c).Some? ==>
              CheckRemoval(c).value
              == if && c.actorMembership != c.targetMembership
                    && (c.actorRole == Owner || (c.actorRole == Admin && c.currentRole != Owner))
                 then Conflict else Forbidden
  {
  }
}
