/**
 * What may go wrong outside the process. Every operation is told whether it is calm. While it is, nothing
 * it depends on fails: no database statement, no file operation, no upload, download or deletion of a
 * message. Otherwise each of them may, every time.
 */
module Environment {

  /** Whether the next thing to be attempted fails. */
  method Fails(calm: bool) returns (fails: bool)
    ensures calm ==> !fails
  {
    fails := false;
    if !calm {
      fails := *;
    }
  }
}
