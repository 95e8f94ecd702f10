# Online-Snake: framing, session logic and state parser in Dafny

This project models the core of the Online-Snake game server and client.
Many clients each steer one snake. The server answers every client command
with a snapshot of the world.

- **Framing** (`framing.dfy`, module `Framing`). After the key exchange,
  every message of a session (each command and each reply) is framed by
  `send_with_length`: the payload length as 4 big-endian bytes, then the
  payload. The key exchange itself uses plain `send`/`recv`
  (`snake_server.py:82-85`). `recv_with_length` reads a frame back from a stream
  socket whose `recv(n)` may deliver any non-empty prefix of at most `n`
  pending bytes. The socket is the class `Framing.Socket`. Its `Recv` picks
  the chunk size freely, so the receiver is proved correct however the
  stream is split. `RecvWithLength` is the source's two-loop method, proved
  against the pure `DecodeFrame`. The round trip is proved both as a lemma
  and as a send-then-receive method `SendThenReceive`.
- **Commands** (`commands.dfy`, module `Commands`). A client command is
  `"<HEADER>:<CONTENT>"`, split at the first `:`. `Parse` turns it into a
  `Command`: the CONTROL verbs `get`, `quit`, `reset` and the four
  directions, a CHAT code, or `Ignored`.
- **Session** (`server.dfy`, module `Server`). The class `Server.Server`
  holds the server's shared state:
  - `movesQueue`, a set of (player id, direction) pairs;
  - the chat slot `lastChat` / `lastChatTime`;
  - the game's players (in the dictionary's insertion order) and snacks, as
    a reply reads them;
  - `gameLog`, a log of the calls the server makes into the game object.

  `HandleCommand` is one pass of the session loop. `RunSession` is the
  whole loop, including the final `remove_player`. `Tick` is the game
  thread's drain of the moves queue. The pure `Step` / `StepAll` functions
  specify the state changes. `VisibleChat` and `BuildResponse` specify the
  reply.
- **Client state parser** (`state_parser.dfy`, module `StateParser`). This is
  `parse_game_state` for the legacy text state `"<snakes>|<snacks>"`. Snake
  cells are separated by `*` and snack cells by `**`. Each cell is stripped of
  `(`/`)`, split on `,` and read with `int`. Any error gives `([], [])`.
  `FormatState` is an independent reference writer of that text in the
  compact form `(x,y)` (no space after the comma). It is proved to parse
  back to its cells. Python's `str((x, y))` writes `(x, y)`, which the
  source reads but the model's `int` rejects (see `StateParser.ParseInt`
  under "Left out").

`wrappers.dfy` holds `Option` and `Result`.

Timestamps are integer milliseconds passed in as parameters, so the chat
window "less than 5 seconds" is `now - time < 5000`. A client address is
passed in as the text it prints as. The game object (`snake.SnakeGame`) is
not part of this model. Its `move`, `remove_player` and `reset_player` calls
are recorded in `gameLog`, in order. The players and snacks the game holds
after a call (a `World`) are an input of the operation that makes it: each
command of a session arrives together with the game its reply reads, `Tick`
takes the game that `move` leaves, and `RunSession` takes the game left
after the final `remove_player`.

The model follows the code in two places where a reader might expect
otherwise:
- Moves are a set of (player, direction) pairs, not a per-player map. Two
  directions from one player before a tick are both kept.
- A decryption or JSON error ends the session (`snake_server.py:96-103`). It
  is not a no-op.

## Model

| member | source | states |
|---|---|---|
| `Framing.BigEndianValue` | snake_server.py:61 | the big-endian value of `k` bytes is below 256^k |
| `Framing.ToBytes` | snake_server.py:52 | `to_bytes(width, 'big')` gives exactly `width` bytes whose big-endian value is `n` |
| `Framing.ToBytesOfValue` | snake_server.py:52-61 | re-encoding the value of any bytes at their width gives the same bytes (`to_bytes` inverts `from_bytes`) |
| `Framing.Encode` | snake_server.py:50-52 | a frame exists iff the length is below 2^32; it is `4 + len` bytes, its first 4 bytes hold the length big-endian, and the rest is the data unchanged |
| `Framing.DecodeFrame` | snake_server.py:54-68 | on success the payload and the rest make up the stream after the 4 length bytes, and the rest is what follows the payload; `DecodeFrameIsFrame`, `DecodeEncode` and `DecodeTruncated` state the rest of its meaning |
| `Framing.DecodeFrameIsFrame` | snake_server.py:54-68 | a decoded payload is one whose frame is a prefix of the stream, with the rest left over; "closed before length" is reported exactly when fewer than 4 bytes arrive |
| `Framing.DecodeEncode` | snake_server.py:50-68 | round trip: a stream that starts with `Encode(data)` decodes to `data` and leaves exactly the bytes after the frame |
| `Framing.DecodeTruncated` | snake_server.py:56-66 | a stream cut short inside a frame raises the matching ConnectionError (before the length or before the payload), never a short payload |
| `Framing.DecodeWholeFrame` | snake_server.py:61-68 | 4 length bytes followed by that many payload bytes decode to that payload and leave the rest |
| `Framing.DecodeShortPayload` | snake_server.py:63-66 | a stream that ends with fewer payload bytes than declared is "closed before full message" |
| `Framing.Received` | snake_server.py:57-60 | a chunk taken from the pending bytes extends the received prefix, and what stays pending is the remaining suffix |
| `Framing.Socket.Recv` | snake_server.py:57 | `recv(n)` returns a prefix of at most `n` pending bytes and removes it; it is empty only when `n` is 0 or nothing is left |
| `Framing.RecvWithLength` | snake_server.py:54-68 | on success it returns the first frame's payload and leaves exactly the bytes after that frame unread (each `recv` asks only for the missing bytes); otherwise it returns the ConnectionError `DecodeFrame` names and the stream is exhausted |
| `Framing.SendThenReceive` | snake_server.py:50-68 | a frame written by `send_with_length` comes back unchanged from `recv_with_length`, for every way the stream chunks it, and later bytes stay unread |
| `Commands.SplitAtFirst` | snake_server.py:106-107 | there is no split iff the text has no `:`; otherwise header + `:` + content is the text and the header holds no `:` |
| `Commands.SplitAtFirstOf` | snake_server.py:107 | the split happens at the first colon: for a header without `:` the split of `header:content` is exactly (header, content) |
| `Commands.ControlVerb` | snake_server.py:108-118 | a CONTROL content is ignored exactly when it is none of get, quit, reset, up, down, left, right; a move carries the direction the content names; `PlainVerb` and `ParsePlainVerb` say which verb gives get, quit and reset |
| `Commands.Parse` | snake_server.py:106-122 | a command without `:` does nothing |
| `Commands.ParseChat` | snake_server.py:107-119 | `CHAT:` followed by any text is a chat whose code is all of that text, colons included |
| `Commands.ParseChatWithColon` | snake_server.py:107 | `"CHAT:Z:x"` has the code `"Z:x"` |
| `Commands.ParseControl` | snake_server.py:107-118 | `CONTROL:` followed by a verb is read by the whole verb |
| `Commands.ParseUnknownHeader` | snake_server.py:106-122 | a header other than CONTROL or CHAT makes any command a no-op |
| `Commands.ParseUnknownVerb` | snake_server.py:108-118 | a CONTROL verb outside get, quit, reset, up, down, left and right is a no-op |
| `Commands.ParseMove` | snake_server.py:117-118 | a command queues direction `d` iff it is exactly `CONTROL:` + the name of `d` |
| `Commands.PlainVerb` | snake_server.py:109-116 | the verbs get, quit and reset are read back as get, quit and reset |
| `Commands.ParsePlainVerb` | snake_server.py:106-116 | a command is read as get, quit or reset iff it is exactly `CONTROL:` followed by that verb |
| `Commands.ParseGet` | snake_server.py:109-110 | a command only asks for a snapshot iff it is exactly `CONTROL:get` |
| `Commands.ParseReset` | snake_server.py:115-116 | a command resets the player's snake iff it is exactly `CONTROL:reset` |
| `Commands.ParseQuit` | snake_server.py:111-114 | a command ends the session iff it is exactly `CONTROL:quit` |
| `Server.PredefinedMessage` | snake_server.py:17-21 | a canned chat line exists exactly for the codes Z, X and C, and it is never empty |
| `Server.QueuedMoves` | snake_server.py:117-118 | the queue only grows, and only by pairs of this player with a direction name; `QueuedMovesChange` pins the one pair |
| `Server.QueuedMovesChange` | snake_server.py:117-118 | only a movement command changes the queue; it only adds its own (id, direction) pair |
| `Server.QueuedMovesIdempotent` | snake_server.py:118 | re-adding the same move leaves the queue unchanged |
| `Server.QueuedMovesKeepsBoth` | snake_server.py:117-118 | two different directions from one player are both in the queue: the queue is a set of pairs, not a per-player map |
| `Server.ChatAfter` | snake_server.py:119-122 | the slot either stays or becomes a non-empty line stamped with the current time; `ChatAfterChange` says when and which line |
| `Server.ChatAfterChange` | snake_server.py:119-122 | the chat slot changes only on a CHAT with code Z, X or C; then it holds "Chat from {addr}: " + the canned line, stamped with the current time |
| `Server.VisibleChat` | snake_server.py:124-129 | the reply carries the stored chat line iff the line is set, non-empty and `now - time` is below 5 seconds (strict); otherwise it carries null |
| `Server.ChatWindowAfterChat` | snake_server.py:119-129 | a line set by a known code at time `t` is shown at `now` iff `now - t < 5 s`, and it is exactly that line |
| `Server.BuildResponse` | snake_server.py:131-143 | one snake entry per player, in player order, with that player's body positions in order and colour; every snack position; the given chat message |
| `Server.CallsFor` | snake_server.py:111-116 | a command calls into the game exactly when it is quit or reset, at most once, and only about its own player; `StepCalls` says which call each command makes |
| `Server.Step` | snake_server.py:105-122 | one command adds at most one game call and keeps the earlier ones, only grows the queue, and leaves the game as given |
| `Server.StepCalls` | snake_server.py:111-116 | a command calls `remove_player` for its own player iff it is exactly `CONTROL:quit`, calls `reset_player` for its own player iff it is exactly `CONTROL:reset`, and calls nothing otherwise |
| `Server.NoOpCommands` | snake_server.py:106-123 | get, an unrecognised command and a chat with an unknown code leave the queue, the chat slot and the game-call log untouched |
| `Server.Served` | snake_server.py:111-114 | the number of answered commands is the position of the first quit (or all of them) |
| `Server.ServedBeforeQuit` | snake_server.py:111-114 | no command before the first quit is a quit |
| `Server.NotQuitBeforeServed` | snake_server.py:111-114 | a non-quit command at or before the first quit comes strictly before it |
| `Server.RepliesFor` | snake_server.py:125-146 | one reply per answered command; the last one shows the snacks of the game as its command left it |
| `Server.ReplyReadsItsWorld` | snake_server.py:131-143 | the reply to each answered command shows the players and snacks the game held right after that command, and the chat slot after it at its arrival time |
| `Server.AfterOneMore` | snake_server.py:89-146 | running one more command applies that command's step and appends its reply |
| `Server.Server.constructor` | snake_server.py:31-48 | the server starts with an empty moves queue, no chat line, chat time 0 and no game calls |
| `Server.Server.HandleCommand` | snake_server.py:105-146 | the new queue, chat slot and game-call log are `Step` of the old ones, and the game holds `seen`; there is no reply iff the command is quit; otherwise the reply shows `seen`'s players and snacks and the new chat slot at `now` |
| `Server.Server.Tick` | snake_server.py:74-75 | the queued moves are handed to the game once, the queue becomes empty, the chat slot is untouched, and the game holds what `move` left |
| `Server.Server.ServeUntilQuit` | snake_server.py:89-146 | the session loop answers the commands before the first quit, in order, each from the game as that command left it, and applies the commands up to and including the quit |
| `Server.Server.RunSession` | snake_server.py:89-156 | every command before the first quit is answered, in order; the commands up to and including the quit are applied; nothing after the quit is read; the player is removed when the session ends, however it ends, and the game then holds `closing` |
| `StateParser.Split` | snake_client.py:57-58 | `split` always returns at least one piece |
| `StateParser.JoinSplit` | snake_client.py:57-58 | joining the pieces of a split with the separator gives the original text back |
| `StateParser.SplitJoin` | snake_client.py:57-58 | splitting joined pieces that lack the separator's first character gives those pieces back |
| `StateParser.SplitCount` | snake_client.py:56 | splitting on one character gives one more piece than it has occurrences |
| `StateParser.Strip` | snake_client.py:57-58 | `strip('()')` returns the middle of the fragment: only `(`/`)` are removed, from both ends, and the result neither starts nor ends with one |
| `StateParser.ParseInt` | snake_client.py:57-58 | `int` succeeds exactly on an optional sign followed by one or more decimal digits |
| `StateParser.ParseIntText` | snake_client.py:57-58 | `int` reads back the decimal text of every integer |
| `StateParser.ParseCell` | snake_client.py:57-58 | a parsed cell has one integer per comma-separated component of the stripped fragment |
| `StateParser.ParseInts` | snake_client.py:57-58 | a cell's components all parse, or the cell fails; on success it has one integer per component, in order |
| `StateParser.NonEmpty` | snake_client.py:57-58 | `if pos` keeps every non-empty fragment and nothing else; `NonEmptyAppend` and `NonEmptySingle` give their count and order |
| `StateParser.NonEmptyAppend` | snake_client.py:57-58 | filtering a concatenation filters each part and keeps their order |
| `StateParser.NonEmptySingle` | snake_client.py:57-58 | one fragment is kept exactly when it is non-empty, so the kept fragments are the non-empty ones, each once and in order |
| `StateParser.ParseAllCells` | snake_client.py:57-58 | the cells come out iff every kept fragment is a well-formed cell; on success there is one cell per fragment, in order |
| `StateParser.ParseHalves` | snake_client.py:57-62 | if every non-empty `*`-fragment on the left and `**`-fragment on the right is a cell, both lists hold those cells in order; otherwise both lists are empty (all or nothing) |
| `StateParser.ParseGameState` | snake_client.py:54-62 | a state without exactly one `\|` gives `([], [])` |
| `StateParser.ParseGameStateOf` | snake_client.py:56-59 | a state with exactly one `\|` is read as its two halves |
| `StateParser.ParseFormatCell` | snake_client.py:57 | the text `(x,y,...)` of a non-empty cell parses back to that cell |
| `StateParser.ParseFormatState` | snake_client.py:54-62 | the text written for any snake and snack cells (each non-empty) parses back to exactly those cells |

## Left out

- The RSA key exchange and Fernet encryption (`snake_server.py:35, 82-87, 97, 145`) are left out because they are calls into cryptographic libraries. The session works on decrypted command strings.
- A decryption or JSON error ends the session (`snake_server.py:96-103`). The model does not have this path: a session's inbox holds only commands that decoded.
- The session also ends through the outer handler (`snake_server.py:147-155`) when `game.remove_player` or `game.reset_player` raises (lines 112, 116) or when sending the reply fails (line 146). The model takes these calls to return normally and every reply it builds to be delivered.
- JSON encoding of replies and decoding of requests (`snake_server.py:98, 144`) are left out. A reply is the `Response` record itself.
- `snake.SnakeGame` is not part of this model. Its movement, growth, collisions and snack spawning are left out.
- `Server.Server.HandleCommand`: `remove_player` and `reset_player` are recorded in `gameLog`; the players and snacks the game holds afterwards are taken as given (`seen`), not computed from the call.
- `Server.Server.Tick`: `game.move` is recorded with the moves it receives; the players and snacks it leaves are taken as given (`moved`), not computed.
- Threads and unlocked shared globals (`snake_server.py:2, 160, 167`) are left out. Interleaving is modelled only by calling `Tick` and `HandleCommand` in sequence on one `Server`.
- The tick timing and `sleep` (`snake_server.py:72-73, 76-77`) are left out. They need wall-clock floats.
- Random colour and UUID assignment, `add_player`, socket bind/accept and `main` (`snake_server.py:14, 23-29, 158-170`) are left out. Player ids, addresses and the initial players are parameters.
- Time is an integer count of milliseconds. The source reads `time.time()` twice: once when it stores a chat line and once when it tests the window. The model uses one `now` per command for both reads.
- `Framing.Encode`: `to_bytes(4)` raising OverflowError is modelled as `None`. What the caller does with the exception is not modelled.
- `StateParser.ParseInt`: Python's `int` also accepts surrounding whitespace, `_` between digits and non-ASCII decimal digits. The model accepts only an optional `+`/`-` followed by ASCII digits.
- The pygame window, drawing, the event loop and the client's raw socket I/O (`snake_client.py:7-51, 64-133`) are left out. They are UI and I/O.
- `test.py` is a demonstration of the `rsa` module and is not part of this model.
