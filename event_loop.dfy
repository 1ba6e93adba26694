/** One cycle of `server::run`: a readiness wait, then a forward pass over the
    connection set that accepts on the listener and receives on every other
    ready descriptor, dispatching the complete lines each receive makes
    available. The operating system calls (poll, accept, recv) are oracles;
    sendall and close appear as the actions they perform on a descriptor. */
module EventLoop {
  import opened ConnectionSet
  import opened Framing

  /** What the line handler returns: whether to disconnect, and the response. */
  datatype Reply = Reply(disconnect: bool, response: string)

  /** An effect of the server on a client descriptor: a `sendall` of one
      string, or a `close`. */
  datatype Action = Send(fd: int, data: string) | Close(fd: int)

  /** A `sendall` on `fd` for each string, in order. */
  function Sends(fd: int, ps: seq<string>): (r: seq<Action>)
    ensures |r| == |ps| && forall j :: 0 <= j < |r| ==> r[j] == Send(fd, ps[j])
  {
    seq(|ps|, j requires 0 <= j < |ps| => Send(fd, ps[j]))
  }

  /** `Sends` on a first string and the rest. */
  lemma SendsCons(fd: int, p: string, ps: seq<string>)
    ensures Sends(fd, [p] + ps) == [Send(fd, p)] + Sends(fd, ps)
  {
  }

  /** The effects of dispatching one line: every framed piece of the response
      is sent, and only then, if the handler asked for it, the descriptor is
      closed. */
  function Dispatch(fd: int, line: string, handler: string -> Reply): (r: seq<Action>)
    ensures forall j :: 0 <= j < |r| ==> r[j].fd == fd
    ensures handler(line).disconnect <==> r != [] && r[|r| - 1] == Close(fd)
  {
    var reply := handler(line);
    Sends(fd, Framed(reply.response)) + (if reply.disconnect then [Close(fd)] else [])
  }

  /** The effects of dispatching a run of lines in arrival order. A disconnect
      asked for by one line does not stop the lines after it. */
  function DrainLog(fd: int, lines: seq<string>, handler: string -> Reply): (r: seq<Action>)
    ensures forall j :: 0 <= j < |r| ==> r[j].fd == fd
  {
    if lines == [] then [] else Dispatch(fd, lines[0], handler) + DrainLog(fd, lines[1..], handler)
  }

  /** Draining two batches of lines one after the other has the same effects
      as draining them together. */
  lemma {:induction false} DrainLogAppend(fd: int, a: seq<string>, b: seq<string>, handler: string -> Reply)
    ensures DrainLog(fd, a + b, handler) == DrainLog(fd, a, handler) + DrainLog(fd, b, handler)
  {
    if a == [] {
      assert a + b == b;
    } else {
      assert (a + b)[0] == a[0];
      assert (a + b)[1..] == a[1..] + b;
      DrainLogAppend(fd, a[1..], b, handler);
    }
  }

  /** Every line of a drain is dispatched, in its place: the lines before it,
      whatever their handlers returned, only add effects in front of its own. */
  lemma DrainLogAt(fd: int, lines: seq<string>, handler: string -> Reply, k: nat)
    requires k < |lines|
    ensures DrainLog(fd, lines, handler) ==
      DrainLog(fd, lines[..k], handler) + Dispatch(fd, lines[k], handler) + DrainLog(fd, lines[k + 1..], handler)
  {
    assert lines == lines[..k] + lines[k..];
    DrainLogAppend(fd, lines[..k], lines[k..], handler);
    DrainLogStep(fd, lines, handler, k);
  }

  /** The drain of the lines from `k` on dispatches line `k` first. */
  lemma DrainLogStep(fd: int, lines: seq<string>, handler: string -> Reply, k: nat)
    requires k < |lines|
    ensures DrainLog(fd, lines[k..], handler) == Dispatch(fd, lines[k], handler) + DrainLog(fd, lines[k + 1..], handler)
  {
    assert lines[k..][1..] == lines[k + 1..];
  }

  /** Draining one more line appends that line's effects. */
  lemma DrainLogSnoc(fd: int, lines: seq<string>, handler: string -> Reply, k: nat)
    requires k < |lines|
    ensures DrainLog(fd, lines[..k + 1], handler) == DrainLog(fd, lines[..k], handler) + Dispatch(fd, lines[k], handler)
  {
    assert lines[..k + 1] == lines[..k] + [lines[k]];
    DrainLogAppend(fd, lines[..k], [lines[k]], handler);
    assert [lines[k]][1..] == [];
  }

  /** A disconnect closes the descriptor as soon as that line's response is
      sent, and the lines after it are still dispatched afterwards: their
      responses go to the descriptor already closed. */
  lemma CloseThenContinue(fd: int, lines: seq<string>, handler: string -> Reply, k: nat)
    requires k < |lines| && handler(lines[k]).disconnect
    ensures var log, p := DrainLog(fd, lines, handler), |DrainLog(fd, lines[..k + 1], handler)| - 1;
      0 <= p < |log| && log[p] == Close(fd) && log[p + 1..] == DrainLog(fd, lines[k + 1..], handler)
  {
    var a, d, b := DrainLog(fd, lines[..k], handler), Dispatch(fd, lines[k], handler), DrainLog(fd, lines[k + 1..], handler);
    DrainLogAt(fd, lines, handler, k);
    DrainLogSnoc(fd, lines, handler, k);
    assert d[|d| - 1] == Close(fd);
    var log := DrainLog(fd, lines, handler);
    assert log == a + d + b;
    assert log[|a| + |d|..] == b;
  }

  /** A handler answering "quit" with "bye" and a disconnect, and any other
      line with "ok". */
  function QuitHandler(line: string): Reply
  {
    if line == "quit" then Reply(true, "bye") else Reply(false, "ok")
  }

  /** When "quit" and "x" arrive in one receive, "bye" is sent, the descriptor
      is closed, and "ok" is then sent on the closed descriptor. */
  lemma QuitThenLine()
    ensures DrainLog(7, ["quit", "x"], QuitHandler) == [Send(7, "bye\r\n"), Close(7), Send(7, "ok\r\n")]
  {
    OneLineFramed("bye");
    OneLineFramed("ok");
    assert "bye" + CRLF == "bye\r\n" && "ok" + CRLF == "ok\r\n";
    assert QuitHandler("quit") == Reply(true, "bye");
    assert |"x"| != |"quit"|;
    assert QuitHandler("x") == Reply(false, "ok");
    assert Dispatch(7, "quit", QuitHandler) == [Send(7, "bye\r\n"), Close(7)];
    assert Dispatch(7, "x", QuitHandler) == [Send(7, "ok\r\n")];
    assert ["quit", "x"][1..] == ["x"];
    assert ["x"][1..] == [];
  }

  /** The `std::getline` loop of the dispatcher: send each '\n'-separated piece
      of `response` followed by "\r\n". */
  method Respond(fd: int, response: string) returns (log: seq<Action>)
    ensures log == Sends(fd, Framed(response))
  {
    log := [];
    var pos := 0;
    while pos < |response|
      invariant 0 <= pos <= |response|
      invariant log + Sends(fd, Framed(response[pos..])) == Sends(fd, Framed(response))
      decreases |response| - pos
    {
      var k := pos;
      while k < |response| && response[k] != '\n'
        invariant pos <= k <= |response|
        invariant forall j :: pos <= j < k ==> response[j] != '\n'
      {
        k := k + 1;
      }
      var line := response[pos..k] + CRLF;
      var next := if k < |response| then k + 1 else k;
      FramedStep(response, pos, k);
      SendsCons(fd, line, Framed(response[next..]));
      assert (log + [Send(fd, line)]) + Sends(fd, Framed(response[next..])) == log + Sends(fd, Framed(response[pos..]));
      log := log + [Send(fd, line)];
      pos := next;
    }
    assert log + [] == log;
  }

  /** The `while (buffers[sender_fd].has_line())` loop: hand each complete line
      to the handler, send its framed response, and close the descriptor after
      the response when the handler asks to disconnect. */
  method Drain(fd: int, lines: seq<string>, handler: string -> Reply) returns (log: seq<Action>)
    ensures log == DrainLog(fd, lines, handler)
  {
    log := [];
    for k := 0 to |lines|
      invariant log == DrainLog(fd, lines[..k], handler)
    {
      var reply := handler(lines[k]);
      var sent := Respond(fd, reply.response);
      var closed := if reply.disconnect then [Close(fd)] else [];
      DrainLogSnoc(fd, lines, handler, k);
      log := log + (sent + closed);
    }
    assert lines[..|lines|] == lines;
  }

  /** No action of `log` targets `fd`. */
  predicate NoneOn(log: seq<Action>, fd: int)
  {
    forall j :: 0 <= j < |log| ==> log[j].fd != fd
  }

  /** Two runs of actions that avoid `fd` avoid it together. */
  lemma NoneOnAppend(a: seq<Action>, b: seq<Action>, fd: int)
    requires NoneOn(a, fd) && NoneOn(b, fd)
    ensures NoneOn(a + b, fd)
  {
  }

  /** The body of the pass for slot `i`: when poll() reported the slot
      readable, accept on the listener (taking the next accept() result) or
      receive on a client (taking the next recv() result): a receive of 0 or
      less closes and removes the client, anything else drains the lines that
      became complete. Only the listener's slot, slot 0, can make the set grow. */
  method ServeSlot(conns: PollSet, listener: int, i: nat, accepts: nat, receives: nat,
                   accept: nat -> int, recv: nat -> int, arrived: nat -> seq<string>,
                   handler: string -> Reply) returns (accepts': nat, receives': nat, actions: seq<Action>)
    requires conns.Valid() && conns.ListenerFirst(listener) && i < conns.count
    requires forall n :: accept(n) != listener
    modifies conns, conns.pfds
    ensures conns.Valid() && conns.ListenerFirst(listener)
    ensures conns.pfds == old(conns.pfds) || fresh(conns.pfds)
    ensures old(conns.count) - 1 <= conns.count <= old(conns.count) + (if i == 0 then 1 else 0)
    ensures NoneOn(actions, listener)
    ensures if conns.count == old(conns.count) + 1 && old(conns.count) == old(conns.size)
      then fresh(conns.pfds) && conns.size == 2 * old(conns.size)
      else conns.pfds == old(conns.pfds) && conns.size == old(conns.size)
    ensures forall j :: conns.count <= j < conns.size ==>
      conns.pfds[j] == if j < old(conns.size) then old(conns.pfds[j]) else Unset
    ensures (old(conns.pfds[i].revents) & POLLIN) == 0 ==>
      accepts' == accepts && receives' == receives && actions == [] && conns.Live() == old(conns.Live())
    ensures (old(conns.pfds[i].revents) & POLLIN) != 0 && old(conns.pfds[i].fd) == listener ==>
      accepts' == accepts + 1 && receives' == receives && actions == [] &&
      Fds(conns.Live()) == Fds(old(conns.Live())) + (if accept(accepts) == -1 then [] else [accept(accepts)]) &&
      if accept(accepts) == -1 then conns.Live() == old(conns.Live())
      else
        conns.count == old(conns.count) + 1 && conns.Live()[..old(conns.count)] == old(conns.Live()) &&
        conns.pfds[old(conns.count)].fd == accept(accepts) && conns.pfds[old(conns.count)].events == POLLIN &&
        conns.pfds[old(conns.count)].revents ==
          if old(conns.count) < old(conns.size) then old(conns.pfds[conns.count].revents) else Unset.revents
    ensures (old(conns.pfds[i].revents) & POLLIN) != 0 && old(conns.pfds[i].fd) != listener ==>
      accepts' == accepts && receives' == receives + 1 &&
      if recv(receives) <= 0 then
        actions == [Close(old(conns.pfds[i].fd))] && conns.Live() == SwapRemove(old(conns.Live()), i)
      else
        actions == DrainLog(old(conns.pfds[i].fd), arrived(receives), handler) && conns.Live() == old(conns.Live())
  {
    accepts', receives', actions := accepts, receives, [];
    if (conns.pfds[i].revents & POLLIN) != 0 {
      if conns.pfds[i].fd == listener {
        var newfd := accept(accepts);
        accepts' := accepts + 1;
        if newfd != -1 {
          ghost var before := conns.Live();
          conns.Add(newfd);
          assert conns.Live() == before + [conns.pfds[conns.count - 1]];
          ListenerOnlyFirstAppend(before, conns.pfds[conns.count - 1], listener);
        }
      } else {
        var nbytes := recv(receives);
        var lines := arrived(receives);
        receives' := receives + 1;
        var senderFd := conns.pfds[i].fd;
        if nbytes <= 0 {
          actions := [Close(senderFd)];
          ghost var before := conns.Live();
          conns.Delete(i);
          ListenerOnlyFirstRemove(before, i, listener);
        } else {
          actions := Drain(senderFd, lines, handler);
        }
      }
    }
  }

  /** One iteration of the server's main loop. `reported` are the events poll()
      reports for the live slots; `accept(n)`, `recv(n)` and `arrived(n)` are
      the results of the n-th accept() and recv() call in this pass and the
      lines the connection's line buffer then holds complete. After a removal
      the index still advances, so the entry moved into the freed slot is not
      examined in this pass; an entry added during the pass is examined with
      whatever `revents` its slot held. */
  method ServeOnce(conns: PollSet, listener: int, reported: seq<bv16>,
                   accept: nat -> int, recv: nat -> int, arrived: nat -> seq<string>,
                   handler: string -> Reply) returns (log: seq<Action>)
    requires conns.Valid() && conns.ListenerFirst(listener)
    requires |reported| == conns.count
    requires forall n :: accept(n) != listener
    modifies conns, conns.pfds
    ensures conns.Valid() && conns.ListenerFirst(listener)
    ensures NoneOn(log, listener)
  {
    conns.Poll(reported);
    log := [];
    var accepts, receives := 0, 0;
    var i := 0;
    while i < conns.count
      invariant conns.Valid() && conns.ListenerFirst(listener)
      invariant conns.pfds == old(conns.pfds) || fresh(conns.pfds)
      invariant i <= conns.count + 1
      invariant NoneOn(log, listener)
      decreases conns.count + (if i == 0 then 2 else 1) - i
    {
      var actions;
      accepts, receives, actions := ServeSlot(conns, listener, i, accepts, receives, accept, recv, arrived, handler);
      NoneOnAppend(log, actions, listener);
      log := log + actions;
      i := i + 1;
    }
  }
}
