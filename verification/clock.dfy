/** The deadline of a diff. The clock itself is not modelled: reading it against
    a finite deadline may answer either way at any time. */
module Clock {

  datatype Deadline = Never | Until(ms: int)

  method Expired(deadline: Deadline) returns (late: bool)
    ensures deadline.Never? ==> !late
  {
    if deadline.Never? {
      late := false;
    } else {
      late := *;
    }
  }
}
