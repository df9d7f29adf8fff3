/** A guard chain: each controller runs a fixed list of checks and answers with
    the error of the first one that does not pass. This module is the reference
    definition the controllers' nested conditionals are compared against. */
module Guards {
  import opened Common

  /** One check of a chain: whether it passes, and the error it answers with
      when it does not. */
  datatype Check = Check(pass: bool, error: ErrorKind)

  /** Check `i` is the first check of the chain that does not pass. */
  predicate FailsFirstAt(checks: seq<Check>, i: int)
  {
    && 0 <= i < |checks|
    && !checks[i].pass
    && forall j :: 0 <= j < i ==> checks[j].pass
  }

  /** The error of the first failing check, or `None` when all pass. */
  function FirstFailure(checks: seq<Check>): (r: Option<ErrorKind>)
    ensures r.None? <==> forall i :: 0 <= i < |checks| ==> checks[i].pass
    ensures r.Some? ==> exists i :: FailsFirstAt(checks, i) && checks[i].error == r.value
  {
    if |checks| == 0 then None
    else if !checks[0].pass then
      assert FailsFirstAt(checks, 0);
      Some(checks[0].error)
    else
      var r := FirstFailure(checks[1..]);
      assert forall i :: 0 < i < |checks| ==> checks[i] == checks[1..][i - 1];
      if r.Some? then
        var i :| FailsFirstAt(checks[1..], i) && checks[1..][i].error == r.value;
        assert FailsFirstAt(checks, i + 1);
        r
      else
        r
  }

  /** Only the first failing check decides the answer: whatever the later
      checks say, the error is that check's. */
  lemma {:induction false} FirstFailureAt(checks: seq<Check>, i: int)
    requires FailsFirstAt(checks, i)
    ensures FirstFailure(checks) == Some(checks[i].error)
  {
    if i > 0 {
      assert forall j :: 0 <= j < i - 1 ==> checks[1..][j] == checks[j + 1];
      FirstFailureAt(checks[1..], i - 1);
    }
  }
}
