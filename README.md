# beej-plus-plus: a Dafny model of the server and client core

beej-plus-plus is a small line-oriented TCP transport: a single-threaded
poll()-based server and a blocking client exchanging newline-delimited text.
This project models the algorithms inside `src/beej.cpp`, with the operating
system calls replaced by oracles (sequences or functions of results), and
proves what they promise:

- `connection_set.dfy` (module `ConnectionSet`): the server's `pollfd` array
  with `fd_count` and `fd_size` as a class over an `array`. `Add` is
  `add_to_pfds` (capacity doubles when full). `Delete` is `del_from_pfds`
  (swap-remove). `Poll` writes the reported events. The constructor is the
  start of `server::run`.
- `reliable_writer.dfy` (module `ReliableWriter`): `sendall` as a loop over a
  sequence of send() results, proved against a recursive specification.
- `framing.dfy` (module `Framing`): the dispatcher's `std::getline` split of a
  handler's response and its `"\r\n"` re-termination, with round trips.
- `client_lines.dfy` (module `ClientLines`): the client's
  `erase(find_last_not_of(" \n\r\t") + 1)` strip (npos + 1 wraps to 0 in
  `size_t`), the skipping of empty lines, and the `client::read` loops.
- `event_loop.dfy` (module `EventLoop`): one cycle of `server::run`. It waits
  for readiness, then walks the connection set forward. It accepts on the
  listener and receives on the other descriptors. It drains the complete
  lines of each receive through the handler.
- `wire.dfy` (module `Wire`): both ends together. It shows what a client's
  callback receives for a framed response.

The model keeps these behaviours of the code as they are:

- Responses are split on `'\n'` only. A response written with `"\r\n"` keeps
  its `'\r'` in each piece, so the piece goes out as `"...\r\r\n"`. On the
  client side that `'\r'` is stripped again (`Wire.StripCR`).
- After a removal the pass still advances its index. The entry moved into the
  freed slot is therefore not examined until the next cycle.
- A descriptor added during a pass is examined in the same pass, with
  whatever `revents` value its slot already held.
- A disconnect requested by the handler closes the descriptor as soon as that
  line's response has been sent, and leaves it in the connection set. Later
  lines of the same receive are still dispatched, and their responses are sent
  to the descriptor already closed (`EventLoop.CloseThenContinue`,
  `EventLoop.QuitThenLine`).

## Model

| member | source | states |
|---|---|---|
| `ConnectionSet.SwapRemove` | src/beej.cpp:82-87 | removing slot i leaves one fewer entry; slot i holds the former last entry and every other slot below the new count is unchanged |
| `ConnectionSet.SwapRemoveMultiset` | src/beej.cpp:82-87 | swap-remove keeps membership: the multiset of live entries is the old one minus the removed entry |
| `ConnectionSet.SwapRemoveFds` | src/beej.cpp:82-87 | the multiset of live descriptors after `del_from_pfds(i)` is the old one minus `pfds[i].fd` |
| `ConnectionSet.PollSet.constructor` | src/beej.cpp:115-129 | start-up allocates `fd_size` slots and installs the listener with POLLIN as the only live entry, in slot 0 |
| `ConnectionSet.PollSet.Add` | src/beej.cpp:67-79 | capacity doubles exactly when count equals capacity (fresh allocation keeping old slots); the new fd with POLLIN sits at the old count; count grows by one; earlier entries unchanged; `0 < fd_size` and `fd_count <= fd_size` preserved; the new slot's `revents` is what the slot held before, or the placeholder's 0 after growth |
| `ConnectionSet.PollSet.Delete` | src/beej.cpp:82-87 | count shrinks by one; the live entries become the swap-remove of the old ones; every slot except i keeps its contents; the invariant is preserved |
| `ConnectionSet.PollSet.Poll` | src/beej.cpp:133 | the readiness wait only sets `revents` of the live slots to the reported events |
| `ConnectionSet.ListenerOnlyFirstAppend` | src/beej.cpp:75-78 | appending a client's entry keeps the listener in slot 0 and nowhere else |
| `ConnectionSet.ListenerOnlyFirstRemove` | src/beej.cpp:82-87 | removing a client's entry by swap keeps the listener in slot 0 and nowhere else |
| `ConnectionSet.RegisterAll` | src/beej.cpp:126-154 | after start-up and any number of accepted connections, whatever the initial capacity, the live descriptors are the listener followed by every accepted descriptor in order (none dropped) |
| `ReliableWriter.SendAllSpec` | src/beej.cpp:89-106 | for admissible send() results the status is 0 or -1; `0 <= sent <= len`; the status is 0 exactly when every byte was sent |
| `ReliableWriter.Calls` | src/beej.cpp:94-101 | sendall calls send() at least once and never more often than there are results (the loop's own count of calls is `Calls`, by `SendAll`) |
| `ReliableWriter.SendAllSent` | src/beej.cpp:94-103 | the reported count is the sum of the send() results: all of them on success, those before the failing -1 on failure; every call before the last accepted at least one byte |
| `ReliableWriter.SendAll` | src/beej.cpp:89-106 | the loop (keeping `total + bytesleft == len`) terminates with `sent <= len`, returns 0 iff `sent == len` and -1 iff fewer bytes went out, agrees with `SendAllSpec`, and makes exactly `Calls` send() calls |
| `Framing.NextLF` | src/beej.cpp:182 | where `std::getline` stops: the first '\n' at or after the cursor, or the end; nothing before it is '\n' |
| `Framing.Lines` | src/beej.cpp:180-182 | no piece yielded by the getline loop contains '\n' |
| `Framing.LinesStep` | src/beej.cpp:182 | the first piece is everything before the first '\n', and the rest comes from what follows it |
| `Framing.FramedStep` | src/beej.cpp:182-187 | one getline call on the unread text sends the piece up to the next '\n' plus "\r\n", then the pieces of what follows |
| `Framing.Frame` | src/beej.cpp:183 | one sent string per piece |
| `Framing.Framed` | src/beej.cpp:180-186 | the strings sent for a response: none exactly when the response is empty |
| `Framing.FrameAt` | src/beej.cpp:183 | each sent string is its piece followed by "\r\n" |
| `Framing.OneLineFramed` | src/beej.cpp:180-187 | a non-empty response without '\n' is one piece, sent as one string ending in "\r\n" |
| `Framing.JoinLines` | src/beej.cpp:180-187 | re-joining the pieces with '\n' gives back the response, with one final '\n' added when it lacked one |
| `Framing.LinesJoin` | src/beej.cpp:180-182 | pieces without '\n', joined with '\n', split back into exactly those pieces |
| `Framing.LinesCount` | src/beej.cpp:182 | the number of pieces is the number of '\n' plus one for an unterminated tail: no trailing empty piece, nothing for an empty response |
| `Framing.FrameWire` | src/beej.cpp:183-186 | the bytes sent for a run of pieces are their '\n'-join with every '\n' written as "\r\n" |
| `Framing.FramedWire` | src/beej.cpp:180-187 | the bytes sent for a response are the terminated response with every '\n' written as "\r\n" |
| `Framing.UnframeRoundTrip` | src/beej.cpp:180-187 | every sent string ends in "\r\n"; stripping it and re-joining with '\n' gives back the response modulo one trailing '\n' |
| `ClientLines.FindLastNotOf` | src/beej.cpp:266 | the result is npos exactly when the line is all blanks; otherwise it indexes a non-blank with only blanks after it |
| `ClientLines.StripTrailing` | src/beej.cpp:266 | the result is a prefix of the line that does not end in a blank, and everything cut off is a blank |
| `ClientLines.StripIsTrimRight` | src/beej.cpp:266 | the erase/find_last_not_of expression equals dropping blanks from the end one at a time |
| `ClientLines.TrimRightUnique` | src/beej.cpp:266 | the maximal trailing run of blanks is unique: a prefix ending in a non-blank with only blanks behind it is the stripped line |
| `ClientLines.StripIdempotent` | src/beej.cpp:266 | stripping twice is stripping once |
| `ClientLines.StripStable` | src/beej.cpp:266 | a line not ending in a blank is left unchanged |
| `ClientLines.StripEmpty` | src/beej.cpp:266-267 | a line becomes empty, so the callback is skipped, exactly when it is all blanks |
| `ClientLines.Delivered` | src/beej.cpp:264-268 | at most one callback per extracted line, and every callback argument is non-empty and does not end in a blank |
| `ClientLines.DeliveredAppend` | src/beej.cpp:262-268 | delivering two batches of lines one after the other equals delivering them together |
| `ClientLines.DeliveredSnoc` | src/beej.cpp:264-267 | one more extracted line adds its stripped form to the callbacks, unless that is empty |
| `ClientLines.DeliveredSnocReceive` | src/beej.cpp:252-268 | one more successful receive adds the callbacks for its own lines after the earlier ones |
| `ClientLines.Deliver` | src/beej.cpp:264-268 | the drain loop makes exactly the callbacks `Delivered` specifies, each with a non-empty, already-stripped line |
| `ClientLines.Read` | src/beej.cpp:252-270 | the read loop stops at the first receive of 0 or less, or is still waiting when every receive so far succeeded; either way it has delivered the stripped non-empty lines of all successful receives, in order |
| `EventLoop.Dispatch` | src/beej.cpp:177-188 | the effects of one line all target the sender's descriptor, and the last one is a close exactly when the handler asked to disconnect |
| `EventLoop.DrainLog` | src/beej.cpp:176-189 | every send and close of a drain targets the sender's descriptor |
| `EventLoop.DrainLogAppend` | src/beej.cpp:175-189 | draining two batches of lines in sequence has the same effects as draining them together |
| `EventLoop.DrainLogAt` | src/beej.cpp:176-189 | every line of a drain is dispatched in its place, whatever the earlier lines' handlers returned (a disconnect does not stop the drain) |
| `EventLoop.DrainLogSnoc` | src/beej.cpp:176-189 | dispatching one more line appends exactly that line's effects |
| `EventLoop.CloseThenContinue` | src/beej.cpp:176-189 | when a line asks to disconnect, the close comes right after its response, and everything after the close is the dispatch of the later lines of the same receive |
| `EventLoop.QuitThenLine` | src/beej.cpp:176-189 | "quit" (answered "bye" with a disconnect) then "x" (answered "ok") sends "bye\r\n", closes, then sends "ok\r\n" on the closed descriptor |
| `EventLoop.Respond` | src/beej.cpp:180-187 | the getline loop sends exactly the framed pieces of the response, in order |
| `EventLoop.Drain` | src/beej.cpp:176-189 | the has_line loop sends each line's framed response and closes after it when asked, for every line, in arrival order |
| `EventLoop.ServeSlot` | src/beej.cpp:143-191 | one slot of the pass: unreadable changes nothing; the listener takes the next accept() result and, unless it is -1, appends it with POLLIN behind the unchanged live entries (the new slot's `revents` is what the slot held, or 0 after growth); a client takes the next recv() result and is closed and swap-removed on 0 or less, or has its lines drained otherwise; only slot 0 can grow the set; the array and `fd_size` change only when an accept fills it (then doubled, fresh); every slot at or past the new count keeps its old contents (so a swap-remove leaves the former last entry, with its `revents`, in the freed slot) or holds the placeholder after growth; the listener stays first |
| `EventLoop.ServeOnce` | src/beej.cpp:132-193 | one cycle keeps the connection set valid with the listener in slot 0 and nowhere else; nothing is ever sent to or closed on the listener |
| `Wire.StripCR` | src/beej.cpp:266 | the '\r' the server adds before '\n' is removed by the client's strip |
| `Wire.FramedAsSeenByClient` | src/beej.cpp:180-187 | for pieces without '\n', as the getline split yields them, a client receives for the framed pieces exactly what it would for the bare '\n'-terminated pieces |
| `Wire.HelloReachesClient` | src/beej.cpp:180-187 | a response "hello" reaches the client's callback as exactly "hello" |

## Left out

- `get_listener_socket`, `get_in_addr` and `client::connect` are address resolution, socket, bind, listen and connect calls, which belong to the operating system. A failed bind or listen exits the process and is not modelled.
- `poll`, `accept`, `recv`, `close`, `perror` and `exit` are environment calls. poll's reported events and the results of accept and recv are oracle parameters. A poll failure (which exits) is not modelled. `close` appears only as a `Close` action.
- The infinite `for (;;)` of `server::run` is modelled one cycle at a time (`ServeOnce`).
- The line buffer's `append`/`has_line`/`get_line` are defined in `beej.h`, which is not part of this model. A receive is modelled by the complete lines the buffer then holds.
- The `buffers[sender_fd]` side map is folded into those lines. So is the fact that a closed connection's buffer is never erased.
- `malloc`/`realloc` failure is not modelled. Growth allocates a fresh array holding the old slots. Uninitialised slots hold a fixed placeholder (`Unset`).
- ConnectionSet.PollSet.Add: does not model overflow of the C `int` in `*fd_size *= 2`, because integers here are unbounded.
- ReliableWriter.SendAll: requires `len > 0`, because with `len == 0` the C code returns a status computed from an uninitialised variable.
- ReliableWriter.SendAll: send() results other than -1 or `1..bytesleft` are not modelled. The loop may not terminate on them (0) or mis-count on them (other negative values).
- The server and `client::send` ignore sendall's result, so the server is modelled as issuing `Send` actions without consulting send(). `client::send` is sendall on the whole string and has no model of its own.
- EventLoop.ServeOnce: requires that accept() never returns the listening descriptor, which the operating system guarantees. Its contract states the connection-set and listener invariants, not the full list of actions of a cycle; the effects of each slot are stated by `EventLoop.ServeSlot`.
- The sizes in `int len = line.size();` and `int len = data.size();` are a `size_t` truncated to `int`. `Send` carries the whole string, so a string longer than `INT_MAX` is not modelled.
- The handler is a pure `string -> Reply`. The `std::function` may carry state, so two equal lines could get different replies; the model does not cover such a handler.
- `server::server`, `server::on_line`, `client::client`, the destructor and `client::disconnect` only store or close; the handler is a function parameter instead.
- Wire.FramedAsSeenByClient: assumes the client's line buffer hands out the bytes before each '\n', because `beej.h` is not part of this model.
