/** Notions shared by several parts. */
module Common {

  datatype Option<+T> = None | Some(value: T)

  /** Process ids; a pointer to a process record is the id of its process. */
  type Pid = nat

  ghost predicate Distinct(q: seq<nat>) {
    forall i, j | 0 <= i < j < |q| :: q[i] != q[j]
  }

  /** The element at a position of a list; none past the end. */
  function At(q: seq<nat>, i: nat): Option<nat> {
    if i < |q| then Some(q[i]) else None
  }
}
