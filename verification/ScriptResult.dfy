/** What a script hands back to Go, and how Go reads it. */
module ScriptResult {
  import opened Prelude

  /** A script value: an int64, or something toInt does not accept. */
  datatype Value = Int(n: int) | Other

  /** limiter.Result with its ResetAfter, or the error Allow returns. */
  datatype Result = Ok(reply: Reply, resetAfter: int) | Err

  /** The four values a script returns for a reply. */
  function Encode(reply: Reply): seq<Value> {
    [Int(if reply.allowed then 1 else 0), Int(reply.remaining), Int(reply.retryAfter), Int(reply.limit)]
  }

  /** parseScriptResult; values past the fourth are ignored. */
  function Parse(values: seq<Value>, resetAfter: int): Result {
    if |values| < 4 || values[0].Other? || values[1].Other? || values[2].Other? || values[3].Other? then Err
    else Ok(Reply(values[0].n == 1, values[1].n, values[2].n, values[3].n), resetAfter)
  }

  /** Go reads back the reply the script meant, whatever else the script returns. */
  lemma ParseEncoded(reply: Reply, more: seq<Value>, resetAfter: int)
    ensures Parse(Encode(reply) + more, resetAfter) == Ok(reply, resetAfter)
  {
    assert (Encode(reply) + more)[..4] == Encode(reply);
  }

  /** Exactly the results with fewer than four values, or one of the first four not accepted, are errors; of others
      Go reads the values in the script's order, and only 1 means allowed. */
  lemma ParseReads(values: seq<Value>, resetAfter: int)
    ensures Parse(values, resetAfter) == Err <==> |values| < 4 || exists i :: 0 <= i < 4 && values[i] == Other
    ensures forall a, b, c, d, more ::
              values == [Int(a), Int(b), Int(c), Int(d)] + more ==>
                Parse(values, resetAfter) == Ok(Reply(a == 1, b, c, d), resetAfter)
  {
    if |values| >= 4 {
      if values[0] == Other || values[1] == Other || values[2] == Other || values[3] == Other {
        var i := if values[0] == Other then 0 else if values[1] == Other then 1
                 else if values[2] == Other then 2 else 3;
        assert values[i] == Other;
      }
    }
    forall a, b, c, d, more | values == [Int(a), Int(b), Int(c), Int(d)] + more
      ensures Parse(values, resetAfter) == Ok(Reply(a == 1, b, c, d), resetAfter)
    {
      assert values[0] == Int(a) && values[1] == Int(b) && values[2] == Int(c) && values[3] == Int(d);
    }
  }
}
