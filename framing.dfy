/** Response framing in the server's dispatcher: the handler's response is read
    piece by piece with `std::getline(ss, line, '\n')`, and every piece is sent
    as `line + "\r\n"`. */
module Framing {

  const CRLF: string := "\r\n"

  /** The index of the first '\n' at or after `from`, or `|s|` when there is
      none: where `std::getline` stops reading. */
  function NextLF(s: string, from: nat): (k: nat)
    requires from <= |s|
    ensures from <= k <= |s|
    ensures forall j :: from <= j < k ==> s[j] != '\n'
    ensures k < |s| ==> s[k] == '\n'
    decreases |s| - from
  {
    if from == |s| || s[from] == '\n' then from else NextLF(s, from + 1)
  }

  /** The strings successive `std::getline(ss, line, '\n')` calls yield before
      the stream runs dry: a call that extracts nothing fails, so an empty
      response yields nothing and a final '\n' yields no empty piece. */
  function Lines(s: string): (r: seq<string>)
    ensures forall j :: 0 <= j < |r| ==> '\n' !in r[j]
    decreases |s|
  {
    if s == [] then []
    else
      var k := NextLF(s, 0);
      if k == |s| then [s] else [s[..k]] + Lines(s[k + 1..])
  }

  /** Each piece followed by "\r\n": the strings the dispatcher hands to sendall. */
  function Frame(ls: seq<string>): (r: seq<string>)
    ensures |r| == |ls|
  {
    if ls == [] then [] else [ls[0] + CRLF] + Frame(ls[1..])
  }

  /** Each sent string is its piece followed by "\r\n". */
  lemma {:induction false} FrameAt(ls: seq<string>, j: nat)
    requires j < |ls|
    ensures Frame(ls)[j] == ls[j] + CRLF
  {
    if j > 0 {
      FrameAt(ls[1..], j - 1);
    }
  }

  /** The strings sent for a response. */
  function Framed(response: string): (r: seq<string>)
    ensures r == [] <==> response == []
  {
    Frame(Lines(response))
  }

  /** Pieces each followed by '\n'. */
  function Join(ls: seq<string>): string
  {
    if ls == [] then [] else ls[0] + "\n" + Join(ls[1..])
  }

  /** The text with a final '\n' added unless it is empty or already ends in one. */
  function Terminated(s: string): string
  {
    if s == [] || s[|s| - 1] == '\n' then s else s + "\n"
  }

  /** The text with every '\n' written as "\r\n". */
  function ToCRLF(s: string): string
  {
    if s == [] then [] else (if s[0] == '\n' then CRLF else [s[0]]) + ToCRLF(s[1..])
  }

  /** The strings one after the other, as they reach the wire. */
  function Concat(ls: seq<string>): string
  {
    if ls == [] then [] else ls[0] + Concat(ls[1..])
  }

  /** The number of '\n' characters in `s`. */
  function CountLF(s: string): nat
  {
    if s == [] then 0 else (if s[0] == '\n' then 1 else 0) + CountLF(s[1..])
  }

  /** `Lines` on a non-empty text: the first piece is everything before the first
      '\n'; the rest comes from what follows that '\n'. */
  lemma LinesStep(s: string, k: nat)
    requires k <= |s| && s != []
    requires forall j :: 0 <= j < k ==> s[j] != '\n'
    requires k < |s| ==> s[k] == '\n'
    ensures Lines(s) == [s[..k]] + (if k == |s| then [] else Lines(s[k + 1..]))
  {
    var k' := NextLF(s, 0);
    assert k' == k;
    if k == |s| { assert s[..k] == s; }
  }

  /** What one `std::getline` call on the unread part `s[pos..]` yields and
      leaves: the piece up to the next '\n', sent with "\r\n", then the pieces
      of what follows that '\n'. */
  lemma FramedStep(s: string, pos: nat, k: nat)
    requires pos < |s| && pos <= k <= |s|
    requires forall j :: pos <= j < k ==> s[j] != '\n'
    requires k < |s| ==> s[k] == '\n'
    ensures Framed(s[pos..]) == [s[pos..k] + CRLF] + Framed(s[if k < |s| then k + 1 else k..])
  {
    var rest := s[pos..];
    LinesStep(rest, k - pos);
    assert rest[..k - pos] == s[pos..k];
    if k < |s| {
      assert rest[k - pos + 1..] == s[k + 1..];
    }
    assert Lines(rest)[1..] == Lines(s[if k < |s| then k + 1 else k..]);
  }

  /** A response without '\n' is sent as one string ending in "\r\n". */
  lemma OneLineFramed(response: string)
    requires response != [] && '\n' !in response
    ensures Lines(response) == [response] && Framed(response) == [response + CRLF]
  {
    LinesStep(response, |response|);
    assert response[..|response|] == response;
    assert [response][1..] == [];
  }

  /** Re-joining the pieces with '\n' gives back the response, up to one
      final '\n'. */
  lemma {:induction false} JoinLines(s: string)
    ensures Join(Lines(s)) == Terminated(s)
    decreases |s|
  {
    if s != [] {
      var k := NextLF(s, 0);
      if k == |s| {
        LinesStep(s, k);
        assert s[..k] == s;
        assert Join([s]) == s + "\n";
      } else {
        JoinLinesStep(s, k);
        JoinLines(s[k + 1..]);
        TerminatedAt(s, k);
      }
    }
  }

  /** Joining the pieces of a text whose first '\n' is at `k`. */
  lemma JoinLinesStep(s: string, k: nat)
    requires k < |s| && s[k] == '\n'
    requires forall j :: 0 <= j < k ==> s[j] != '\n'
    ensures Join(Lines(s)) == s[..k] + "\n" + Join(Lines(s[k + 1..]))
  {
    LinesStep(s, k);
    var ls := Lines(s);
    assert ls[0] == s[..k] && ls[1..] == Lines(s[k + 1..]);
  }

  /** Terminating a text that continues after a '\n' only affects what
      follows it. */
  lemma TerminatedAt(s: string, k: nat)
    requires k < |s| && s[k] == '\n'
    ensures Terminated(s) == s[..k] + "\n" + Terminated(s[k + 1..])
  {
    var rest := s[k + 1..];
    assert s == s[..k] + "\n" + rest;
    if rest != [] {
      assert s[|s| - 1] == rest[|rest| - 1];
      assert s + "\n" == s[..k] + "\n" + (rest + "\n");
    }
  }

  /** Splitting pieces that contain no '\n', once joined, gives them back:
      the split is exactly inverse to the join. */
  lemma {:induction false} LinesJoin(ls: seq<string>)
    requires forall j :: 0 <= j < |ls| ==> '\n' !in ls[j]
    ensures Lines(Join(ls)) == ls
  {
    if ls != [] {
      var a, tail := ls[0], Join(ls[1..]);
      var s := Join(ls);
      assert s == a + "\n" + tail;
      var k := |a|;
      assert '\n' !in a;
      forall j | 0 <= j < k
        ensures s[j] != '\n'
      {
        assert s[j] == a[j] && a[j] in a;
      }
      LinesStep(s, k);
      assert s[..k] == a;
      assert s[k + 1..] == tail;
      LinesJoin(ls[1..]);
      assert ls == [a] + ls[1..];
    }
  }

  /** The count of pieces: one per '\n', plus one for an unterminated tail. */
  lemma {:induction false} LinesCount(s: string)
    ensures |Lines(s)| == CountLF(s) + (if s != [] && s[|s| - 1] != '\n' then 1 else 0)
    decreases |s|
  {
    if s != [] {
      var k := NextLF(s, 0);
      LinesStep(s, k);
      CountLFPrefix(s, k);
      if k < |s| {
        var rest := s[k + 1..];
        LinesCount(rest);
        assert |Lines(s)| == 1 + |Lines(rest)|;
        assert CountLF(s[k..]) == 1 + CountLF(rest) by {
          assert s[k..][1..] == rest;
        }
        if rest != [] {
          assert rest[|rest| - 1] == s[|s| - 1];
        }
      }
    }
  }

  /** Counting '\n' across a prefix free of them. */
  lemma {:induction false} CountLFPrefix(s: string, k: nat)
    requires k <= |s| && forall j :: 0 <= j < k ==> s[j] != '\n'
    ensures CountLF(s) == (if k < |s| then CountLF(s[k..]) else 0)
    decreases k
  {
    if k > 0 {
      assert s[0] != '\n';
      CountLFPrefix(s[1..], k - 1);
      assert s[1..][k - 1..] == s[k..];
    }
  }

  /** `ToCRLF` works character by character. */
  lemma {:induction false} ToCRLFAppend(a: string, b: string)
    ensures ToCRLF(a + b) == ToCRLF(a) + ToCRLF(b)
    decreases |a|
  {
    if a == [] {
      assert a + b == b;
    } else {
      assert (a + b)[0] == a[0];
      assert (a + b)[1..] == a[1..] + b;
      ToCRLFAppend(a[1..], b);
    }
  }

  /** A text without '\n' is left as it is by `ToCRLF`. */
  lemma {:induction false} ToCRLFPlain(p: string)
    requires '\n' !in p
    ensures ToCRLF(p) == p
    decreases |p|
  {
    if p != [] {
      assert p[1..] + [] == p[1..];
      assert '\n' !in p[1..];
      ToCRLFPlain(p[1..]);
      assert p == [p[0]] + p[1..];
    }
  }

  /** What goes on the wire for a set of pieces: each piece with its
      "\r\n", which is the '\n'-joined text with "\r\n" for every '\n'. */
  lemma {:induction false} FrameWire(ls: seq<string>)
    requires forall j :: 0 <= j < |ls| ==> '\n' !in ls[j]
    ensures Concat(Frame(ls)) == ToCRLF(Join(ls))
  {
    if ls != [] {
      FrameWire(ls[1..]);
      assert Frame(ls)[1..] == Frame(ls[1..]);
      ToCRLFAppend(ls[0] + "\n", Join(ls[1..]));
      ToCRLFAppend(ls[0], "\n");
      ToCRLFPlain(ls[0]);
      assert ToCRLF("\n") == CRLF;
    }
  }

  /** The bytes the dispatcher transmits for a response are the response,
      terminated, with every '\n' written as "\r\n". */
  lemma FramedWire(response: string)
    ensures Concat(Framed(response)) == ToCRLF(Terminated(response))
  {
    FrameWire(Lines(response));
    JoinLines(response);
  }

  /** Each sent string with its final "\r\n" removed. */
  function Unframe(fs: seq<string>): (r: seq<string>)
    requires forall j :: 0 <= j < |fs| ==> |fs[j]| >= 2
    ensures |r| == |fs|
  {
    seq(|fs|, j requires 0 <= j < |fs| => fs[j][..|fs[j]| - 2])
  }

  /** Stripping "\r\n" from every string sent for a response and re-joining
      the pieces with '\n' gives back the response, up to one final '\n'. */
  lemma UnframeRoundTrip(response: string)
    ensures var fs := Framed(response);
      (forall j :: 0 <= j < |fs| ==> |fs[j]| >= 2 && fs[j][|fs[j]| - 2..] == CRLF) &&
      Join(Unframe(fs)) == Terminated(response)
  {
    var ls := Lines(response);
    var fs := Frame(ls);
    forall j | 0 <= j < |fs|
      ensures |fs[j]| >= 2 && fs[j][..|fs[j]| - 2] == ls[j] && fs[j][|fs[j]| - 2..] == CRLF
    {
      FrameAt(ls, j);
      assert fs[j] == ls[j] + CRLF;
    }
    assert Unframe(fs) == ls;
    JoinLines(response);
  }
}
