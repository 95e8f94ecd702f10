/**
 * The server's shared state and its per-command session logic
 * (client_thread and the queue drain of game_thread in snake_server.py).
 *
 * The game object (SnakeGame) is not part of this model. The calls the
 * server makes into it (move, remove_player, reset_player) are recorded in
 * `gameLog` in the order they are made, and the players and snacks the game
 * holds afterwards are given as inputs (a `World`): the model does not
 * compute them.
 */
module Server {
  import opened Wrappers
  import opened Commands

  type Cell = (int, int)
  type Color = (int, int, int)

  /** An entry of `moves_queue`: (player id, direction name). */
  type PendingMove = (string, string)

  /** A player of the game, in the order the game's player dictionary holds them. */
  datatype Player = Player(id: string, body: seq<Cell>, color: Color)

  /** A call the server makes into the game object. */
  datatype GameCall =
    | MoveAll(moves: set<PendingMove>)   // game.move(moves_queue)
    | RemovePlayer(id: string)           // game.remove_player(id)
    | ResetPlayer(id: string)            // game.reset_player(id)

  /** What the game holds at some moment: its players, in order, and its snacks. */
  datatype World = World(players: seq<Player>, snacks: seq<Cell>)

  /**
   * A command as a session receives it: its text, its arrival time, and the
   * game as the reply to it reads it (after the command's own call into the
   * game and whatever the game thread did meanwhile).
   */
  type Arrival = (string, int, World)

  datatype SnakeInfo = SnakeInfo(positions: seq<Cell>, color: Color)

  /** The response record sent back after every command but quit. */
  datatype Response = Response(snakes: seq<SnakeInfo>, snacks: seq<Cell>, chatMessage: Option<string>)

  /** The shared chat slot: the last chat line and when it was set. */
  datatype ChatSlot = ChatSlot(message: Option<string>, time: int)

  /** Timestamps are integer milliseconds; a chat line is shown while less than 5 seconds old. */
  const ChatWindow: int := 5000

  /** The canned chat lines, keyed by the code a client sends. */
  function PredefinedMessage(code: string): (m: Option<string>)
    ensures m.Some? <==> code == "Z" || code == "X" || code == "C"
    ensures m.Some? ==> m.value != ""
  {
    if code == "Z" then Some("Congratulations!")
    else if code == "X" then Some("It works!")
    else if code == "C" then Some("Ready?")
    else None
  }

  /** The stored chat line for a known code sent from `addr` (its printed form). */
  function ChatLine(addr: string, text: string): string
  {
    "Chat from " + addr + ": " + text
  }

  /** moves_queue after one command of player `id`. */
  function QueuedMoves(q: set<PendingMove>, id: string, c: Command): (q': set<PendingMove>)
    ensures q <= q'
    ensures forall m :: m in q' - q ==> m.0 == id && m.1 in {"up", "down", "left", "right"}
  {
    if c.Move? then q + {(id, DirName(c.dir))} else q
  }

  /** Only a movement command changes the queue, and it adds exactly its own pair. */
  lemma QueuedMovesChange(q: set<PendingMove>, id: string, c: Command)
    ensures q <= QueuedMoves(q, id, c)
    ensures !c.Move? ==> QueuedMoves(q, id, c) == q
    ensures c.Move? ==> (QueuedMoves(q, id, c) - q <= {(id, DirName(c.dir))} &&
      (id, DirName(c.dir)) in QueuedMoves(q, id, c))
  {
  }

  /** Repeating a movement command leaves the queue as the first one left it. */
  lemma QueuedMovesIdempotent(q: set<PendingMove>, id: string, c: Command)
    ensures QueuedMoves(QueuedMoves(q, id, c), id, c) == QueuedMoves(q, id, c)
  {
  }

  /** Two directions from one player before a tick are both queued: the queue is not keyed by player. */
  lemma QueuedMovesKeepsBoth(q: set<PendingMove>, id: string, d1: Direction, d2: Direction)
    requires d1 != d2
    ensures var after := QueuedMoves(QueuedMoves(q, id, Move(d1)), id, Move(d2));
      (id, DirName(d1)) in after && (id, DirName(d2)) in after && (id, DirName(d1)) != (id, DirName(d2))
  {
  }

  /** The chat slot after one command sent from `addr` at time `now`. */
  function ChatAfter(slot: ChatSlot, addr: string, c: Command, now: int): (slot': ChatSlot)
    ensures slot' == slot || (slot'.time == now && slot'.message.Some? && slot'.message.value != "")
  {
    if c.Chat? && PredefinedMessage(c.code).Some? then
      ChatSlot(Some(ChatLine(addr, PredefinedMessage(c.code).value)), now)
    else slot
  }

  /** The game calls one command makes. */
  function CallsFor(id: string, c: Command): (calls: seq<GameCall>)
    ensures calls == [] <==> c != Quit && c != Reset
    ensures |calls| <= 1
    ensures forall call :: call in calls ==> call == RemovePlayer(id) || call == ResetPlayer(id)
  {
    if c == Quit then [RemovePlayer(id)]
    else if c == Reset then [ResetPlayer(id)]
    else []
  }

  /** The chat line a response carries at time `now`: shown only while non-empty and recent. */
  function VisibleChat(slot: ChatSlot, now: int): (m: Option<string>)
    ensures m.Some? <==> slot.message.Some? && slot.message.value != "" && now - slot.time < ChatWindow
    ensures m.Some? ==> m == slot.message
  {
    match slot.message
    case Some(text) => if text != "" && now - slot.time < ChatWindow then Some(text) else None
    case None => None
  }

  /** A known chat code replaces the slot; any other command leaves it alone. */
  lemma ChatAfterChange(slot: ChatSlot, addr: string, c: Command, now: int)
    ensures ChatAfter(slot, addr, c, now) != slot ==>
      c.Chat? && (c.code == "Z" || c.code == "X" || c.code == "C")
    ensures c.Chat? && (c.code == "Z" || c.code == "X" || c.code == "C") ==>
      ChatAfter(slot, addr, c, now).time == now &&
      ChatAfter(slot, addr, c, now).message.Some? &&
      ChatAfter(slot, addr, c, now).message.value == ChatLine(addr, PredefinedMessage(c.code).value)
  {
  }

  /**
   * A line set by a known chat code at `sent` is shown at `now` exactly while
   * `now - sent` is below 5 seconds, until the slot is overwritten.
   */
  lemma ChatWindowAfterChat(slot: ChatSlot, addr: string, code: string, sent: int, now: int)
    requires PredefinedMessage(code).Some?
    ensures var shown := VisibleChat(ChatAfter(slot, addr, Chat(code), sent), now);
      (shown.Some? <==> now - sent < ChatWindow) &&
      (shown.Some? ==> shown.value == ChatLine(addr, PredefinedMessage(code).value))
  {
  }

  /** The response record: one snake per player, in player order, and every snack. */
  function BuildResponse(players: seq<Player>, snacks: seq<Cell>, chat: Option<string>): (r: Response)
    ensures |r.snakes| == |players|
    ensures forall i :: 0 <= i < |players| ==>
      r.snakes[i].positions == players[i].body && r.snakes[i].color == players[i].color
    ensures r.snacks == snacks && r.chatMessage == chat
  {
    Response(seq(|players|, i requires 0 <= i < |players| => SnakeInfo(players[i].body, players[i].color)),
             snacks, chat)
  }

  /** How many commands of `inbox` are answered: those before the first quit. */
  function Served(inbox: seq<Arrival>): (n: nat)
    ensures n <= |inbox|
    ensures n < |inbox| ==> Parse(inbox[n].0) == Quit
  {
    if inbox == [] || Parse(inbox[0].0) == Quit then 0 else 1 + Served(inbox[1..])
  }

  /** No command before the first quit is a quit. */
  lemma {:induction false} ServedBeforeQuit(inbox: seq<Arrival>, i: nat)
    requires i < Served(inbox)
    ensures Parse(inbox[i].0) != Quit
  {
    if i > 0 {
      ServedBeforeQuit(inbox[1..], i - 1);
    }
  }

  /** A command at or before the first quit that is not a quit comes before it. */
  lemma NotQuitBeforeServed(inbox: seq<Arrival>, i: nat)
    requires i <= Served(inbox) && i < |inbox| && Parse(inbox[i].0) != Quit
    ensures i < Served(inbox)
  {
  }

  /** How many commands of `inbox` the session reads: up to and including the first quit. */
  function Consumed(inbox: seq<Arrival>): nat
  {
    if Served(inbox) < |inbox| then Served(inbox) + 1 else |inbox|
  }

  /**
   * A session loop that stops at a quit, or at the end of the inbox, has
   * answered exactly the served commands and read exactly the consumed ones.
   */
  lemma SessionEnd(inbox: seq<Arrival>, i: nat, quit: bool)
    requires i <= Served(inbox)
    requires quit ==> i < |inbox| && Parse(inbox[i].0) == Quit
    requires !quit ==> i >= |inbox|
    ensures i == Served(inbox)
    ensures Consumed(inbox) == if quit then i + 1 else i
  {
    if quit && i < Served(inbox) {
      ServedBeforeQuit(inbox, i);
    }
  }

  /** The shared state a session command changes: the moves queue, the chat slot and the calls made into the game. */
  datatype Shared = Shared(queue: set<PendingMove>, chat: ChatSlot, log: seq<GameCall>, world: World)

  /**
   * One command of player `id`, sent from `addr` and received at time `now`,
   * after which the game holds `seen`.
   */
  function Step(st: Shared, id: string, addr: string, command: string, now: int, seen: World): (st': Shared)
    ensures |st.log| <= |st'.log| <= |st.log| + 1 && st'.log[..|st.log|] == st.log
    ensures st.queue <= st'.queue && st'.world == seen
  {
    var c := Parse(command);
    Shared(QueuedMoves(st.queue, id, c), ChatAfter(st.chat, addr, c, now), st.log + CallsFor(id, c), seen)
  }

  /**
   * Which call into the game a command makes: "CONTROL:quit" calls
   * remove_player and "CONTROL:reset" calls reset_player, both for the
   * command's own player; every other command calls nothing.
   */
  lemma StepCalls(st: Shared, id: string, addr: string, command: string, now: int, seen: World)
    ensures Step(st, id, addr, command, now, seen).log == st.log + [RemovePlayer(id)] <==> command == "CONTROL:quit"
    ensures Step(st, id, addr, command, now, seen).log == st.log + [ResetPlayer(id)] <==> command == "CONTROL:reset"
    ensures Step(st, id, addr, command, now, seen).log == st.log <==>
      command != "CONTROL:quit" && command != "CONTROL:reset"
  {
    ParseQuit(command);
    ParseReset(command);
    var log := Step(st, id, addr, command, now, seen).log;
    if log == st.log + [RemovePlayer(id)] {
      assert log[|st.log|] == RemovePlayer(id);
    }
    if log == st.log + [ResetPlayer(id)] {
      assert log[|st.log|] == ResetPlayer(id);
    }
    if log == st.log {
      assert |log| == |st.log|;
    }
  }

  /** The commands of `cmds`, with their arrival times and the game each leaves, one after another. */
  function StepAll(st: Shared, id: string, addr: string, cmds: seq<Arrival>): Shared
  {
    if cmds == [] then st
    else
      var last := cmds[|cmds| - 1];
      Step(StepAll(st, id, addr, cmds[..|cmds| - 1]), id, addr, last.0, last.1, last.2)
  }

  /**
   * get, an unrecognised command and a chat with an unknown code leave the
   * moves queue, the chat slot and the game calls as they were (the session
   * still replies to them).
   */
  lemma NoOpCommands(st: Shared, id: string, addr: string, command: string, now: int, seen: World)
    requires Parse(command) == Get || Parse(command) == Ignored ||
      (Parse(command).Chat? && PredefinedMessage(Parse(command).code).None?)
    ensures Step(st, id, addr, command, now, seen) == st.(world := seen)
  {
    assert st.log + [] == st.log;
  }

  /**
   * The replies to commands none of which is quit, each built right after its
   * command from the game as that command left it.
   */
  function RepliesFor(st: Shared, id: string, addr: string, cmds: seq<Arrival>): (r: seq<Response>)
    ensures |r| == |cmds|
    ensures cmds != [] ==> r[|cmds| - 1].snacks == cmds[|cmds| - 1].2.snacks
  {
    if cmds == [] then []
    else
      var after := StepAll(st, id, addr, cmds);
      RepliesFor(st, id, addr, cmds[..|cmds| - 1]) +
      [BuildResponse(after.world.players, after.world.snacks, VisibleChat(after.chat, cmds[|cmds| - 1].1))]
  }

  /**
   * The reply to the i-th command shows the game as that command left it and
   * the chat slot after it, at its arrival time.
   */
  lemma {:induction false} ReplyReadsItsWorld(st: Shared, id: string, addr: string, cmds: seq<Arrival>, i: nat)
    requires i < |cmds|
    ensures RepliesFor(st, id, addr, cmds)[i] ==
      BuildResponse(cmds[i].2.players, cmds[i].2.snacks, VisibleChat(StepAll(st, id, addr, cmds[..i + 1]).chat, cmds[i].1))
    decreases |cmds|
  {
    if i < |cmds| - 1 {
      var init := cmds[..|cmds| - 1];
      ReplyReadsItsWorld(st, id, addr, init, i);
      assert init[..i + 1] == cmds[..i + 1];
    } else {
      assert cmds[..i + 1] == cmds;
    }
  }

  /** Running one more command of `inbox` applies that command's step and adds its reply. */
  lemma AfterOneMore(st: Shared, id: string, addr: string, inbox: seq<Arrival>, i: nat)
    requires i < |inbox|
    ensures StepAll(st, id, addr, inbox[..i + 1]) ==
      Step(StepAll(st, id, addr, inbox[..i]), id, addr, inbox[i].0, inbox[i].1, inbox[i].2)
    ensures RepliesFor(st, id, addr, inbox[..i + 1]) ==
      RepliesFor(st, id, addr, inbox[..i]) +
      [BuildResponse(inbox[i].2.players, inbox[i].2.snacks,
                     VisibleChat(StepAll(st, id, addr, inbox[..i + 1]).chat, inbox[i].1))]
  {
    assert inbox[..i + 1][..i] == inbox[..i];
  }

  /** The process-wide state that every session reads and updates. */
  class Server {
    var movesQueue: set<PendingMove>
    var lastChat: Option<string>
    var lastChatTime: int
    var players: seq<Player>
    var snacks: seq<Cell>
    var gameLog: seq<GameCall>

    function Snapshot(): Shared
      reads this
    {
      Shared(movesQueue, ChatSlot(lastChat, lastChatTime), gameLog, World(players, snacks))
    }

    /** The globals at start-up, over a game whose players and snacks are given. */
    constructor (players0: seq<Player>, snacks0: seq<Cell>)
      ensures movesQueue == {} && lastChat == None && lastChatTime == 0
      ensures players == players0 && snacks == snacks0 && gameLog == []
    {
      movesQueue := {};
      lastChat := None;
      lastChatTime := 0;
      players := players0;
      snacks := snacks0;
      gameLog := [];
    }

    /**
     * One pass of the session loop for player `id` connected from `addr`:
     * act on `command` received at time `now`, then answer with the game as
     * it then stands (`seen`), except after quit, which ends the session
     * without a reply.
     */
    method HandleCommand(id: string, addr: string, command: string, now: int, seen: World)
      returns (reply: Option<Response>)
      modifies this
      ensures Snapshot() == Step(old(Snapshot()), id, addr, command, now, seen)
      ensures reply.None? <==> Parse(command) == Quit
      ensures reply.Some? ==> reply.value == BuildResponse(seen.players, seen.snacks, VisibleChat(Snapshot().chat, now))
    {
      var split := SplitAtFirst(command, ':');
      if split.Some? {
        var (header, content) := split.value;
        if header == "CONTROL" {
          if content == "get" {
          } else if content == "quit" {
            gameLog := gameLog + [RemovePlayer(id)];
            players, snacks := seen.players, seen.snacks;
            return None;
          } else if content == "reset" {
            gameLog := gameLog + [ResetPlayer(id)];
          } else if content == "up" || content == "down" || content == "left" || content == "right" {
            movesQueue := movesQueue + {(id, content)};
          }
        } else if header == "CHAT" {
          var text := PredefinedMessage(content);
          if text.Some? {
            lastChat := Some(ChatLine(addr, text.value));
            lastChatTime := now;
          }
        }
      }
      players, snacks := seen.players, seen.snacks;
      var chat := VisibleChat(ChatSlot(lastChat, lastChatTime), now);
      reply := Some(BuildResponse(players, snacks, chat));
    }

    /**
     * One tick of the game thread: hand the queued moves to the game, which
     * then holds `moved`, and replace the queue with an empty set.
     */
    method Tick(moved: World)
      modifies this
      ensures gameLog == old(gameLog) + [MoveAll(old(movesQueue))]
      ensures movesQueue == {}
      ensures lastChat == old(lastChat) && lastChatTime == old(lastChatTime)
      ensures players == moved.players && snacks == moved.snacks
    {
      gameLog := gameLog + [MoveAll(movesQueue)];
      players, snacks := moved.players, moved.snacks;
      movesQueue := {};
    }

    /**
     * The session loop: handle the commands of `inbox` in order until a quit
     * or the end of the inbox, answering every command before the quit.
     */
    method ServeUntilQuit(id: string, addr: string, inbox: seq<Arrival>) returns (replies: seq<Response>)
      modifies this
      ensures replies == RepliesFor(old(Snapshot()), id, addr, inbox[..Served(inbox)])
      ensures Snapshot() == StepAll(old(Snapshot()), id, addr, inbox[..Consumed(inbox)])
    {
      ghost var start := Snapshot();
      replies := [];
      var i := 0;
      var quit := false;
      while i < |inbox| && !quit
        invariant i <= Served(inbox)
        invariant quit ==> i < |inbox| && Parse(inbox[i].0) == Quit
        invariant replies == RepliesFor(start, id, addr, inbox[..i])
        invariant Snapshot() == StepAll(start, id, addr, inbox[..if quit then i + 1 else i])
        decreases |inbox| - i, !quit
      {
        AfterOneMore(start, id, addr, inbox, i);
        var reply := HandleCommand(id, addr, inbox[i].0, inbox[i].1, inbox[i].2);
        if reply.None? {
          quit := true;
        } else {
          NotQuitBeforeServed(inbox, i);
          replies := replies + [reply.value];
          i := i + 1;
        }
      }
      SessionEnd(inbox, i, quit);
    }

    /**
     * A whole session: the commands arrive in `inbox` until the client quits
     * or the connection ends; every command before a quit is answered, and
     * the player is removed from the game when the session ends, whichever
     * way it ends, after which the game holds `closing`.
     */
    method RunSession(id: string, addr: string, inbox: seq<Arrival>, closing: World) returns (replies: seq<Response>)
      modifies this
      ensures replies == RepliesFor(old(Snapshot()), id, addr, inbox[..Served(inbox)])
      ensures var after := StepAll(old(Snapshot()), id, addr, inbox[..Consumed(inbox)]);
        Snapshot() == after.(log := after.log + [RemovePlayer(id)], world := closing)
    {
      replies := ServeUntilQuit(id, addr, inbox);
      gameLog := gameLog + [RemovePlayer(id)];
      players, snacks := closing.players, closing.snacks;
    }
  }
}
