/** `sendall`: repeat send() on the unsent tail of a buffer until every byte is
    accepted or send() fails. send() itself is an oracle: the sequence of
    values it returns on successive calls. */
module ReliableWriter {

  /** What `sendall` reports: its return value (0 or -1) and the count it
      writes back through `*len`. */
  datatype Outcome = Outcome(status: int, sent: int)

  /** send() results that make `sendall` stop when `left > 0` bytes remain:
      each result is -1 (failure) or between 1 and the bytes still left, and
      the results run out no earlier than the loop does. */
  predicate Admissible(results: seq<int>, left: int)
    decreases |results|
  {
    0 < left && |results| > 0 &&
    (results[0] == -1 ||
     (1 <= results[0] <= left &&
      (results[0] == left || Admissible(results[1..], left - results[0]))))
  }

  /** The outcome of `sendall` with `left` bytes to send when send() returns
      `results` in turn. */
  function SendAllSpec(results: seq<int>, left: int): (o: Outcome)
    requires Admissible(results, left)
    ensures o.status == 0 || o.status == -1
    ensures 0 <= o.sent <= left
    ensures o.status == 0 <==> o.sent == left
    decreases |results|
  {
    if results[0] == -1 then Outcome(-1, 0)
    else if results[0] == left then Outcome(0, left)
    else
      var rest := SendAllSpec(results[1..], left - results[0]);
      Outcome(rest.status, results[0] + rest.sent)
  }

  /** The number of send() calls `sendall` makes. */
  function Calls(results: seq<int>, left: int): (n: nat)
    requires Admissible(results, left)
    ensures 1 <= n <= |results|
    decreases |results|
  {
    if results[0] == -1 || results[0] == left then 1
    else 1 + Calls(results[1..], left - results[0])
  }

  /** The sum of a run of send() results. */
  function Sum(s: seq<int>): int
  {
    if s == [] then 0 else s[0] + Sum(s[1..])
  }

  /** The count `sendall` reports is the sum of the accepted send() results:
      all of them on success, all before the failing call on failure; every
      call before the last accepted at least one byte. */
  lemma {:induction false} SendAllSent(results: seq<int>, left: int)
    requires Admissible(results, left)
    ensures var o, n := SendAllSpec(results, left), Calls(results, left);
      (o.status == -1 <==> results[n - 1] == -1) &&
      (o.status == -1 ==> o.sent == Sum(results[..n - 1])) &&
      (o.status == 0 ==> o.sent == Sum(results[..n])) &&
      forall j :: 0 <= j < n - 1 ==> 1 <= results[j]
    decreases |results|
  {
    var o, n := SendAllSpec(results, left), Calls(results, left);
    if results[0] == -1 {
      assert results[..0] == [];
    } else if results[0] == left {
      assert results[..1] == [results[0]];
      assert results[..1][1..] == [];
    } else {
      var tail := results[1..];
      SendAllSent(tail, left - results[0]);
      var m := Calls(tail, left - results[0]);
      assert n == m + 1;
      assert results[..n - 1][1..] == tail[..m - 1];
      assert results[..n][1..] == tail[..m];
    }
  }

  /** `sendall(s, buf, &len)`, with `len > 0` (with 0 the C code returns a
      status read from an uninitialised variable). `calls` is the number of
      send() calls the loop made. */
  method SendAll(len: int, results: seq<int>) returns (status: int, sent: int, ghost calls: nat)
    requires 0 < len
    requires Admissible(results, len)
    ensures 0 <= sent <= len
    ensures status == 0 <==> sent == len
    ensures status == -1 <==> sent < len
    ensures Outcome(status, sent) == SendAllSpec(results, len)
    ensures calls == Calls(results, len)
  {
    var total := 0;
    var bytesleft := len;
    var n := 0;
    var k := 0;
    while total < len
      invariant 0 <= total <= len && total + bytesleft == len
      invariant 0 <= k <= |results|
      invariant n != -1
      invariant total < len ==> Admissible(results[k..], bytesleft)
      invariant total < len ==>
        var o := SendAllSpec(results[k..], bytesleft);
        SendAllSpec(results, len) == Outcome(o.status, total + o.sent)
      invariant total == len ==> SendAllSpec(results, len) == Outcome(0, len)
      invariant total < len ==> Calls(results, len) == k + Calls(results[k..], bytesleft)
      invariant total == len ==> Calls(results, len) == k
      decreases len - total
    {
      n := results[k];
      assert results[k..][1..] == results[k + 1..];
      k := k + 1;
      if n == -1 {
        break;
      }
      total := total + n;
      bytesleft := bytesleft - n;
    }
    sent := total;
    status := if n == -1 then -1 else 0;
    calls := k;
  }
}
