/** Vocabulary shared by the views of the Secret Santa client: optional
    values, JavaScript truthiness of optional string fields, and the
    participant record kept in the remote participant collection. */
module Common {

  /** A value that may be absent (`null` or `undefined` in the client). */
  datatype Option<+T> = None | Some(value: T)

  /** JavaScript truthiness of an optional string field: present and not the
      empty string. */
  predicate Truthy(s: Option<string>)
  {
    s.Some? && s.value != ""
  }

  /** The `status` field of a participant record. */
  datatype ParticipantStatus = Pending | Approved | Rejected

  /** One person's membership of one group, as stored remotely. Identifiers
      are kept in their string form. */
  datatype Participant = Participant(
    id: string,
    userId: Option<string>,
    groupId: Option<string>,
    status: ParticipantStatus,
    gifteeId: Option<string>)
}
