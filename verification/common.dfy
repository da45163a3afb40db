/** Types shared by the comment and user data-access objects: the failure
    datatypes that stand for Java's `null` and exceptions, the abstract
    document identifier, and the counters the MongoDB driver reports back
    from a write. */
module Common {

  /** A value or its absence; a DAO lookup that finds nothing returns `None`
      where the Java code returns `null`. */
  datatype Option<+T> = None | Some(value: T)

  /** The exceptions that escape a DAO method. */
  datatype DaoError =
      /** The repository's own validation exception, with its message. */
    | IncorrectDaoOperation(message: string)
      /** The driver's write error for an insert whose `_id` is already taken;
          `addComment` does not catch it, so it reaches the caller unchanged. */
    | DuplicateKeyWrite

  /** Either the value a DAO method returns or the exception it throws. */
  datatype Result<+T> = Ok(value: T) | Err(error: DaoError)

  /** A document identifier. The hexadecimal-string parsing done by the Java
      code's `new ObjectId(id)` is not modelled: ids are compared for equality only. */
  datatype ObjectId = ObjectId(hex: string)

  type Email = string

  /** A point in time, in milliseconds since the epoch. */
  type Date = int

  /** The counters the driver reports for an `updateOne`. */
  datatype UpdateResult = UpdateResult(matchedCount: nat, modifiedCount: nat)

  /** The flag and counter the driver reports for a `deleteOne`. */
  datatype DeleteResult = DeleteResult(wasAcknowledged: bool, deletedCount: nat)

  /** The driver's `deleteOne` on a collection whose filter is equality on the
      field the map is keyed by: at most one document goes, and the key is
      absent afterwards. Whether the server acknowledged the write is decided
      by the environment and passed in. */
  function DeleteOneByKey<K, V>(m: map<K, V>, k: K, acknowledged: bool): (out: (map<K, V>, DeleteResult))
    ensures k !in out.0
    ensures out.0.Keys == m.Keys - {k}
    ensures forall j :: j in out.0 ==> out.0[j] == m[j]
    ensures out.1.deletedCount == 1 <==> k in m
    ensures out.1.deletedCount <= 1
    ensures out.1.wasAcknowledged == acknowledged
  {
    if k in m then (m - {k}, DeleteResult(acknowledged, 1))
    else (m, DeleteResult(acknowledged, 0))
  }
}
