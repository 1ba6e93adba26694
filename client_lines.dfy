/** The client's line post-processing in `client::read`: every extracted line
    loses its trailing run of ' ', '\n', '\r' and '\t' through
    `line.erase(line.find_last_not_of(" \n\r\t") + 1)`, and the callback is
    invoked only for lines left non-empty. */
module ClientLines {

  /** The characters stripped from the end of a line. */
  const Blanks: string := " \n\r\t"

  /** `std::string::npos`, the largest `size_t` on a 64-bit target. */
  const NPOS: int := 0xFFFF_FFFF_FFFF_FFFF

  /** `size_t` arithmetic wraps modulo 2^64. */
  const SIZE_T_MODULUS: int := 0x1_0000_0000_0000_0000

  /** A `std::string` is always shorter than `npos`. */
  type Line = s: string | |s| < NPOS

  predicate IsBlank(c: char)
  {
    c in Blanks
  }

  /** `s.find_last_not_of(" \n\r\t")` restricted to `s[..n]`: the last index
      below `n` holding a non-blank character, or `npos` when there is none. */
  function FindLastNotOf(s: Line, n: nat): (r: int)
    requires n <= |s|
    ensures r == NPOS || (0 <= r < n && !IsBlank(s[r]))
    ensures r == NPOS <==> forall j :: 0 <= j < n ==> IsBlank(s[j])
    ensures r != NPOS ==> forall j :: r < j < n ==> IsBlank(s[j])
  {
    if n == 0 then NPOS
    else if !IsBlank(s[n - 1]) then n - 1
    else FindLastNotOf(s, n - 1)
  }

  /** `line.erase(line.find_last_not_of(" \n\r\t") + 1)`, where `npos + 1`
      wraps to 0 and so erases the whole line. The result is a prefix of the
      line, does not end in a blank, and what was cut off is all blanks. */
  function StripTrailing(line: Line): (r: Line)
    ensures |r| <= |line| && r == line[..|r|]
    ensures r == [] || !IsBlank(r[|r| - 1])
    ensures forall j :: |r| <= j < |line| ==> IsBlank(line[j])
  {
    var pos := (FindLastNotOf(line, |line|) + 1) % SIZE_T_MODULUS;
    line[..pos]
  }

  /** An independent definition: drop blanks from the end one at a time. */
  function TrimRight(s: string): string
  {
    if s != [] && IsBlank(s[|s| - 1]) then TrimRight(s[..|s| - 1]) else s
  }

  /** A prefix that keeps only blanks behind it and does not itself end in a
      blank is what `TrimRight` leaves. */
  lemma {:induction false} TrimRightUnique(s: string, n: nat)
    requires n <= |s|
    requires n == 0 || !IsBlank(s[n - 1])
    requires forall j :: n <= j < |s| ==> IsBlank(s[j])
    ensures TrimRight(s) == s[..n]
    decreases |s|
  {
    if n == |s| {
      assert s[..n] == s;
    } else {
      var t := s[..|s| - 1];
      TrimRightUnique(t, n);
      assert t[..n] == s[..n];
    }
  }

  /** The C++ expression agrees with the reference definition. */
  lemma StripIsTrimRight(line: Line)
    ensures StripTrailing(line) == TrimRight(line)
  {
    TrimRightUnique(line, |StripTrailing(line)|);
  }

  /** Stripping twice changes nothing more. */
  lemma StripIdempotent(line: Line)
    ensures StripTrailing(StripTrailing(line)) == StripTrailing(line)
  {
    StripStable(StripTrailing(line));
  }

  /** A line becomes empty, and is not passed to the callback, exactly when it
      consists of blanks only. */
  lemma StripEmpty(line: Line)
    ensures StripTrailing(line) == [] <==> forall j :: 0 <= j < |line| ==> IsBlank(line[j])
  {
    if forall j :: 0 <= j < |line| ==> IsBlank(line[j]) {
      TrimRightUnique(line, 0);
      StripIsTrimRight(line);
    }
  }

  /** A line that does not end in a blank is left as it is. */
  lemma StripStable(line: Line)
    requires line == [] || !IsBlank(line[|line| - 1])
    ensures StripTrailing(line) == line
  {
    TrimRightUnique(line, |line|);
    StripIsTrimRight(line);
  }

  /** The arguments of the callback calls for a run of extracted lines, in order. */
  function Delivered(lines: seq<Line>): (r: seq<Line>)
    ensures |r| <= |lines|
    ensures forall j :: 0 <= j < |r| ==> r[j] != [] && !IsBlank(r[j][|r[j]| - 1])
  {
    if lines == [] then []
    else
      var t := StripTrailing(lines[0]);
      (if t == [] then [] else [t]) + Delivered(lines[1..])
  }

  lemma {:induction false} DeliveredAppend(a: seq<Line>, b: seq<Line>)
    ensures Delivered(a + b) == Delivered(a) + Delivered(b)
  {
    if a == [] {
      assert a + b == b;
    } else {
      assert (a + b)[0] == a[0];
      assert (a + b)[1..] == a[1..] + b;
      DeliveredAppend(a[1..], b);
    }
  }

  /** Delivering one more line appends its stripped form, unless that is empty. */
  lemma DeliveredSnoc(lines: seq<Line>, k: nat)
    requires k < |lines|
    ensures var t := StripTrailing(lines[k]);
      Delivered(lines[..k + 1]) == Delivered(lines[..k]) + (if t == [] then [] else [t])
  {
    assert lines[..k + 1] == lines[..k] + [lines[k]];
    DeliveredAppend(lines[..k], [lines[k]]);
    assert [lines[k]][1..] == [];
  }

  /** The inner `while (buffer.has_line())` loop of `client::read`: returns the
      arguments of the callback calls it makes, in order. */
  method Deliver(lines: seq<Line>) returns (calls: seq<Line>)
    ensures calls == Delivered(lines)
    ensures forall j :: 0 <= j < |calls| ==> calls[j] != [] && StripTrailing(calls[j]) == calls[j]
  {
    calls := [];
    for k := 0 to |lines|
      invariant calls == Delivered(lines[..k])
    {
      var line := StripTrailing(lines[k]);
      DeliveredSnoc(lines, k);
      if line != [] {
        calls := calls + [line];
      }
    }
    assert lines[..|lines|] == lines;
    forall j | 0 <= j < |calls|
      ensures StripTrailing(calls[j]) == calls[j]
    {
      StripStable(calls[j]);
    }
  }

  /** One result of `recv` in the client's read loop: the byte count, and the
      lines the line buffer can hand out once the received bytes are appended. */
  datatype Receive = Receive(nbytes: int, lines: seq<Line>)

  /** The lines made available by a run of receives, in arrival order. */
  function AllLines(rs: seq<Receive>): seq<Line>
  {
    if rs == [] then [] else AllLines(rs[..|rs| - 1]) + rs[|rs| - 1].lines
  }

  /** One more receive appends its lines. */
  lemma AllLinesSnoc(rs: seq<Receive>, k: nat)
    requires k < |rs|
    ensures AllLines(rs[..k + 1]) == AllLines(rs[..k]) + rs[k].lines
  {
    assert rs[..k + 1][..k] == rs[..k];
  }

  /** The callbacks after one more receive are those before it followed by
      those for the receive's own lines. */
  lemma DeliveredSnocReceive(rs: seq<Receive>, k: nat)
    requires k < |rs|
    ensures Delivered(AllLines(rs[..k + 1])) == Delivered(AllLines(rs[..k])) + Delivered(rs[k].lines)
  {
    AllLinesSnoc(rs, k);
    DeliveredAppend(AllLines(rs[..k]), rs[k].lines);
  }

  /** `client::read`: receive until `recv` returns 0 or less, delivering the
      stripped non-empty lines of every successful receive, then disconnect.
      `rs` are the receives that happen; when one of them returns 0 or less,
      `closedAt` is that receive, and otherwise `closedAt == |rs|`: the
      connection is still open and the loop would go on waiting. */
  method Read(rs: seq<Receive>) returns (calls: seq<Line>, closedAt: nat)
    ensures closedAt <= |rs|
    ensures closedAt < |rs| ==> rs[closedAt].nbytes <= 0
    ensures forall j :: 0 <= j < closedAt ==> rs[j].nbytes > 0
    ensures calls == Delivered(AllLines(rs[..closedAt]))
  {
    calls := [];
    var k := 0;
    while k < |rs| && rs[k].nbytes > 0
      invariant 0 <= k <= |rs|
      invariant forall j :: 0 <= j < k ==> rs[j].nbytes > 0
      invariant calls == Delivered(AllLines(rs[..k]))
    {
      var more := Deliver(rs[k].lines);
      assert forall j :: 0 <= j < k + 1 ==> rs[j].nbytes > 0;
      DeliveredSnocReceive(rs, k);
      calls := calls + more;
      k := k + 1;
    }
    closedAt := k;
  }
}
