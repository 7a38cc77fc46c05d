/** Values shared by every part of the tutorial's version-control engine:
    the four file statuses, and the Option and Result wrappers the model uses
    for `undefined` results and thrown errors. */
module Constants {

  /** STATUS_ADDED, STATUS_MODIFIED, STATUS_DELETED and STATUS_UNMODIFIED. */
  datatype Status = Added | Modified | Deleted | Unmodified

  /** `undefined` / `null` versus a present value. */
  datatype Option<+T> = None | Some(value: T)

  /** A value, or the message of the error the source throws instead. */
  datatype Result<+T> = Ok(value: T) | Err(message: string)

  /** The `{ added, removed }` line counters a file visual displays. */
  datatype Diff = Diff(added: int, removed: int)

  const NoDiff: Diff := Diff(0, 0)

  /** `Math.max(0, x)`: the least non-negative value that is at least `x`. */
  function ClampAtZero(x: int): (r: nat)
    ensures r >= x
    ensures r == x || r == 0
  {
    if x < 0 then 0 else x
  }
}
