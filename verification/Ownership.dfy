/** The entity ownership document, which the claims and the queries share. */
module Ownerships {
  import opened Prelude
  import opened OwnershipGroups

  type TeamId = nat

  datatype UserCapability = UserCapability(userId: UserId, capabilities: seq<Capability>)

  /** A missing or empty `entityOwnershipGroupId` is None. */
  datatype Ownership = Ownership(
    entityGroup: string,
    entityName: string,
    entityId: Option<string>,
    team: Option<TeamId>,
    userCapabilities: seq<UserCapability>
  )
}
