/** The server's connection set: the `struct pollfd` array `pfds` together with
    its live count `fd_count` and its capacity `fd_size`, as grown by
    `add_to_pfds` and shrunk by `del_from_pfds`. Slot 0 holds the listener. */
module ConnectionSet {

  /** The event bit the server asks poll() to report (POLLIN is 0x001 on Linux). */
  const POLLIN: bv16 := 0x001

  /** One `struct pollfd`: the descriptor, the events asked for and the
      events poll() reported for it in the last wait. */
  datatype PollFd = PollFd(fd: int, events: bv16, revents: bv16)

  /** Stands for the contents of memory that malloc/realloc leave uninitialised. */
  const Unset: PollFd := PollFd(0, 0, 0)

  /** The sequence left by copying the last element over slot `i` and
      dropping the last slot: what `del_from_pfds` does to the live prefix. */
  function SwapRemove<T>(s: seq<T>, i: nat): (r: seq<T>)
    requires i < |s|
    ensures |r| == |s| - 1
    ensures forall j :: 0 <= j < |r| ==> r[j] == (if j == i then s[|s| - 1] else s[j])
  {
    if i == |s| - 1 then s[..i] else s[..|s| - 1][i := s[|s| - 1]]
  }

  /** Removal by swap keeps every other member: the multiset of the live
      entries loses exactly the removed one. */
  lemma SwapRemoveMultiset<T>(s: seq<T>, i: nat)
    requires i < |s|
    ensures multiset(SwapRemove(s, i)) == multiset(s) - multiset{s[i]}
  {
    var last := |s| - 1;
    var p := s[..last];
    assert s == p + [s[last]];
    if i < last {
      assert SwapRemove(s, i) == p[i := s[last]];
      assert p[i] == s[i];
    }
  }

  /** The descriptors of a run of entries, in slot order. */
  function Fds(s: seq<PollFd>): (r: seq<int>)
    ensures |r| == |s| && forall j :: 0 <= j < |s| ==> r[j] == s[j].fd
  {
    seq(|s|, j requires 0 <= j < |s| => s[j].fd)
  }

  /** `del_from_pfds(i)` on the descriptors: the multiset of live descriptors
      is the old one minus the removed descriptor. */
  lemma SwapRemoveFds(s: seq<PollFd>, i: nat)
    requires i < |s|
    ensures multiset(Fds(SwapRemove(s, i))) == multiset(Fds(s)) - multiset{s[i].fd}
  {
    assert Fds(SwapRemove(s, i)) == SwapRemove(Fds(s), i);
    SwapRemoveMultiset(Fds(s), i);
  }

  /** The first entry holds the listening descriptor and no other entry does. */
  ghost predicate ListenerOnlyFirst(s: seq<PollFd>, listener: int)
  {
    1 <= |s| && s[0].fd == listener && forall j :: 1 <= j < |s| ==> s[j].fd != listener
  }

  /** Appending a client entry keeps the listener first and alone. */
  lemma ListenerOnlyFirstAppend(s: seq<PollFd>, e: PollFd, listener: int)
    requires ListenerOnlyFirst(s, listener) && e.fd != listener
    ensures ListenerOnlyFirst(s + [e], listener)
  {
  }

  /** Removing a client entry by swap keeps the listener first and alone. */
  lemma ListenerOnlyFirstRemove(s: seq<PollFd>, i: nat, listener: int)
    requires ListenerOnlyFirst(s, listener) && 0 < i < |s|
    ensures ListenerOnlyFirst(SwapRemove(s, i), listener)
  {
  }

  /** The triple (`pfds`, `fd_count`, `fd_size`) the server keeps as fields and
      passes by pointer to `add_to_pfds` and `del_from_pfds`. */
  class PollSet {
    var pfds: array<PollFd>
    var count: nat
    var size: nat

    /** `fd_size` is the length of the allocation, it is positive, and
        `fd_count` never exceeds it. */
    ghost predicate Valid()
      reads this
    {
      pfds.Length == size && 0 < size && count <= size
    }

    /** The live entries, slots 0 .. fd_count - 1. */
    function Live(): seq<PollFd>
      reads this, pfds
      requires Valid()
    {
      pfds[..count]
    }

    /** Slot 0 is the listening descriptor and no other live slot holds it. */
    ghost predicate ListenerFirst(listener: int)
      reads this, pfds
      requires Valid()
    {
      ListenerOnlyFirst(Live(), listener)
    }

    /** The start of `server::run`: allocate `fd_size` entries and install the
        listener, asking for POLLIN, as the only live entry. */
    constructor (fdSize: nat, listener: int)
      requires 0 < fdSize
      ensures Valid() && fresh(pfds) && size == fdSize && count == 1
      ensures pfds[0].fd == listener && pfds[0].events == POLLIN
      ensures ListenerFirst(listener)
    {
      pfds := new PollFd[fdSize](_ => Unset);
      size := fdSize;
      new;
      pfds[0] := pfds[0].(fd := listener, events := POLLIN);
      count := 1;
    }

    /** `add_to_pfds`: when the set is full, double the capacity (a fresh
        allocation holding the old slots, as realloc does); then write the new
        descriptor with POLLIN into slot `fd_count` and bump the count. */
    method Add(newfd: int)
      requires Valid()
      modifies this, pfds
      ensures Valid()
      ensures size == if old(count) == old(size) then 2 * old(size) else old(size)
      ensures if old(count) == old(size) then fresh(pfds) else pfds == old(pfds)
      ensures count == old(count) + 1
      ensures Live()[..old(count)] == old(Live())
      ensures pfds[old(count)].fd == newfd && pfds[old(count)].events == POLLIN
      ensures forall j :: 0 <= j < old(size) && j != old(count) ==> pfds[j] == old(pfds[j])
      ensures forall j :: old(size) <= j < size && j != old(count) ==> pfds[j] == Unset
      ensures old(count) < old(size) ==> pfds[old(count)].revents == old(pfds[count].revents)
      ensures old(count) == old(size) ==> pfds[old(count)].revents == Unset.revents
    {
      if count == size {
        var was := pfds[..];
        size := 2 * size;
        pfds := new PollFd[size](j requires 0 <= j => if j < |was| then was[j] else Unset);
      }
      pfds[count] := pfds[count].(fd := newfd, events := POLLIN);
      count := count + 1;
    }

    /** `del_from_pfds(i)`: copy the last live entry over slot `i` and shrink
        the count; every other slot keeps its contents. */
    method Delete(i: nat)
      requires Valid() && i < count
      modifies this`count, pfds
      ensures Valid() && count == old(count) - 1
      ensures Live() == SwapRemove(old(Live()), i)
      ensures pfds[..] == old(pfds[..])[i := old(pfds[count - 1])]
    {
      pfds[i] := pfds[count - 1];
      count := count - 1;
    }

    /** The readiness wait: poll() writes the reported events of each live slot
        into its `revents` and touches nothing else. */
    method Poll(reported: seq<bv16>)
      requires Valid() && |reported| == count
      modifies pfds
      ensures forall j :: 0 <= j < count ==> pfds[j] == old(pfds[j]).(revents := reported[j])
      ensures forall j :: count <= j < size ==> pfds[j] == old(pfds[j])
    {
      for j := 0 to count
        invariant forall k :: 0 <= k < j ==> pfds[k] == old(pfds[k]).(revents := reported[k])
        invariant forall k :: j <= k < size ==> pfds[k] == old(pfds[k])
      {
        pfds[j] := pfds[j].(revents := reported[j]);
      }
    }
  }

  /** Server start-up followed by one successful accept per descriptor of
      `accepted`: every accepted descriptor is kept, in arrival order, behind
      the listener, however small the initial capacity. */
  method RegisterAll(fdSize: nat, listener: int, accepted: seq<int>) returns (live: seq<int>)
    requires 0 < fdSize
    ensures live == [listener] + accepted
  {
    var conns := new PollSet(fdSize, listener);
    for k := 0 to |accepted|
      invariant conns.Valid() && fresh(conns) && fresh(conns.pfds)
      invariant Fds(conns.Live()) == [listener] + accepted[..k]
    {
      conns.Add(accepted[k]);
      assert conns.Live() == conns.Live()[..conns.count - 1] + [conns.pfds[conns.count - 1]];
    }
    live := Fds(conns.Live());
    assert accepted[..|accepted|] == accepted;
  }
}
