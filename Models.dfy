/**
 * The three record types held by the store. Each is a plain value with an
 * `id` (its `Identifiable` identity, the key `update` looks up) and no
 * operations of its own. Every field, and whether each optional field is
 * present, belongs to the persisted shape.
 */
module Models {
  import opened Values

  /** A member of the family; `birthday` is optional. */
  datatype FamilyMember = FamilyMember(
    id: Uuid,
    name: string,
    relationship: string,
    birthday: Option<Date>)

  /**
   * A task. `assignedMemberID` is a bare identifier: nothing ties it to the
   * member collection, so it may name a member that has since been removed.
   */
  datatype Task = Task(
    id: Uuid,
    title: string,
    description: Option<string>,
    dueDate: Option<Date>,
    assignedMemberID: Option<Uuid>)

  /** A scheduled event; unlike the other records its `date` is mandatory. */
  datatype FamilyEvent = FamilyEvent(
    id: Uuid,
    title: string,
    date: Date,
    description: Option<string>)

  /** The identity of each record type, as `Identifiable` exposes it. */
  function MemberId(m: FamilyMember): Uuid { m.id }
  function TaskId(t: Task): Uuid { t.id }
  function EventId(e: FamilyEvent): Uuid { e.id }
}
