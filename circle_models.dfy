/** The rows of the circle tables (internal/models/circle.go). Primary keys
    and money columns are `uint` in the source, so they are `nat` here: no
    id and no amount is ever negative. Timestamps other than a contribution's
    month and creation time, and the soft-delete column, are not modelled. */
module CircleModels {
  import opened Common

  type Id = nat

  /** Money in whole currency units (`uint` columns). */
  type Amount = nat

  const RoleAdmin: string := "admin"
  const RoleMember: string := "member"
  const StatusActive: string := "active"
  const StatusPending: string := "pending"

  /** A savings circle. `proposedAmount == 0` is what the handlers read as
      "no proposal is live". */
  datatype Circle = Circle(
    id: Id,
    name: string,
    description: string,
    amountPerMember: Amount,
    proposedAmount: Amount,
    creatorId: Id)

  /** One row of circle_members. Role and status are free strings in the
      table; the handlers only write "admin"/"member" and "pending"/"active",
      but AddMember passes any caller-supplied role through. */
  datatype CircleMember = CircleMember(circleId: Id, userId: Id, role: string, status: string)

  /** One approver's vote on admitting a pending user. */
  datatype MemberApproval = MemberApproval(circleId: Id, pendingUserId: Id, approverUserId: Id, approved: bool)

  /** One recorded saving. */
  datatype Contribution = Contribution(id: Id, circleId: Id, userId: Id, amount: Amount, month: Moment, createdAt: Moment)

  /** One approver's vote on a proposed amount. */
  datatype AmountApproval = AmountApproval(circleId: Id, proposerId: Id, proposedAmount: Amount, approverId: Id, approved: bool)

  /** What a `not null;default:'...'` string column stores: the column
      default when the inserted value is Go's zero value "", the value itself
      otherwise. */
  function ColumnDefault(value: string, default: string): (stored: string)
    requires default != ""
    ensures stored != ""
    ensures value != "" ==> stored == value
    ensures value == "" ==> stored == default
  {
    if value == "" then default else value
  }

  /** The circle_members row the database holds after an insert: role
      defaults to "member" and status to "active". */
  function StoredMember(m: CircleMember): (r: CircleMember)
    ensures r.circleId == m.circleId && r.userId == m.userId
    ensures r.role != "" && r.status != ""
    ensures m.role != "" ==> r.role == m.role
    ensures m.status != "" ==> r.status == m.status
    ensures m.role == "" ==> r.role == RoleMember
    ensures m.status == "" ==> r.status == StatusActive
  {
    m.(role := ColumnDefault(m.role, RoleMember), status := ColumnDefault(m.status, StatusActive))
  }

  /** A circle as inserted: `proposed_amount` is left at its default 0, so
      a new circle has no live proposal. */
  function NewCircle(id: Id, name: string, description: string, amount: Amount, creator: Id): (c: Circle)
    ensures c.proposedAmount == 0
    ensures c.id == id && c.creatorId == creator && c.amountPerMember == amount
  {
    Circle(id, name, description, amount, 0, creator)
  }
}
