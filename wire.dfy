/** The two ends of the wire together: the server sends every response piece
    followed by "\r\n", and a client's line buffer hands out what precedes
    each '\n', which the client then strips. */
module Wire {
  import opened Framing
  import opened ClientLines

  /** What the client's line buffer hands out for a run of sent strings that
      each end in '\n': each string without that final '\n'. */
  function ClientView(fs: seq<string>): (r: seq<Line>)
    requires forall j :: 0 <= j < |fs| ==> 1 <= |fs[j]| <= NPOS
    ensures |r| == |fs|
  {
    if fs == [] then [] else [fs[0][..|fs[0]| - 1]] + ClientView(fs[1..])
  }

  /** The '\r' the server adds before each '\n' is a blank, so the client
      strips it with the piece's own trailing blanks. */
  lemma StripCR(piece: Line)
    requires |piece| + 1 < NPOS
    ensures StripTrailing(piece + "\r") == StripTrailing(piece)
  {
    var s := piece + "\r";
    assert s[..|s| - 1] == piece;
    assert TrimRight(s) == TrimRight(piece);
    StripIsTrimRight(s);
    StripIsTrimRight(piece);
  }

  /** The client's callback receives, for a framed response, exactly what it
      would receive had the pieces been sent with a bare '\n': the stripped,
      non-empty pieces, in order. */
  lemma {:induction false} FramedAsSeenByClient(ls: seq<Line>)
    requires forall j :: 0 <= j < |ls| ==> |ls[j]| + 1 < NPOS && '\n' !in ls[j]
    ensures var fs := Frame(ls);
      (forall j :: 0 <= j < |fs| ==> 1 <= |fs[j]| <= NPOS && fs[j][|fs[j]| - 1] == '\n') &&
      Delivered(ClientView(fs)) == Delivered(ls)
  {
    var fs := Frame(ls);
    forall j | 0 <= j < |fs|
      ensures fs[j] == ls[j] + CRLF
    {
      FrameAt(ls, j);
    }
    if ls != [] {
      FramedAsSeenByClient(ls[1..]);
      var v := ClientView(fs);
      assert fs[1..] == Frame(ls[1..]);
      assert v[0] == ls[0] + "\r" by {
        assert fs[0][..|fs[0]| - 1] == ls[0] + "\r";
      }
      assert v[1..] == ClientView(Frame(ls[1..]));
      StripCR(ls[0]);
      DeliveredCons(v);
      DeliveredCons(ls);
    }
  }

  /** `Delivered` on a non-empty run: the first line's contribution, then the rest's. */
  lemma DeliveredCons(ls: seq<Line>)
    requires ls != []
    ensures var t := StripTrailing(ls[0]);
      Delivered(ls) == (if t == [] then [] else [t]) + Delivered(ls[1..])
  {
  }

  /** Scenario: a handler that answers "hello" makes the client's callback
      receive "hello" and nothing else. */
  lemma HelloReachesClient()
    ensures var fs := Framed("hello");
      (forall j :: 0 <= j < |fs| ==> 1 <= |fs[j]| <= NPOS) &&
      Delivered(ClientView(fs)) == ["hello"]
  {
    OneLineFramed("hello");
    FramedAsSeenByClient(["hello"]);
    StripStable("hello");
    assert Delivered(["hello"][1..]) == [];
  }
}
