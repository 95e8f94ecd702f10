/**
 * The command strings a client sends, "<HEADER>:<CONTENT>", and how the
 * server's session loop reads them (client_thread in snake_server.py).
 */
module Commands {
  import opened Wrappers

  datatype Direction = Up | Down | Left | Right

  /** The CONTROL verb that requests each direction; also the name queued for the tick. */
  function DirName(d: Direction): string
  {
    match d
    case Up => "up"
    case Down => "down"
    case Left => "left"
    case Right => "right"
  }

  /** What a command asks of the session. */
  datatype Command =
    | Get                  // CONTROL:get
    | Quit                 // CONTROL:quit
    | Reset                // CONTROL:reset
    | Move(dir: Direction) // CONTROL:up, CONTROL:down, CONTROL:left, CONTROL:right
    | Chat(code: string)   // CHAT:<code>, whatever the code
    | Ignored              // no ':', an unknown header or an unknown CONTROL verb

  /** `s.split(c, 1)` when `c in s`, and None when it is not. */
  function SplitAtFirst(s: string, c: char): (r: Option<(string, string)>)
    ensures r.None? <==> c !in s
    ensures r.Some? ==> s == r.value.0 + [c] + r.value.1 && c !in r.value.0
  {
    if s == [] then None
    else if s[0] == c then Some(([], s[1..]))
    else match SplitAtFirst(s[1..], c)
      case None => None
      case Some((h, t)) => Some(([s[0]] + h, t))
  }

  /** The split is at the first occurrence: it is determined by the header alone. */
  lemma {:induction false} SplitAtFirstOf(h: string, c: char, t: string)
    requires c !in h
    ensures SplitAtFirst(h + [c] + t, c) == Some((h, t))
  {
    var s := h + [c] + t;
    if h == [] {
      assert s[0] == c && s[1..] == t;
    } else {
      assert s[0] == h[0] != c;
      assert s[1..] == h[1..] + [c] + t;
      SplitAtFirstOf(h[1..], c, t);
      assert [h[0]] + h[1..] == h;
    }
  }

  /** The CONTROL verb named by the whole content; anything else is ignored. */
  function ControlVerb(verb: string): (c: Command)
    ensures c == Ignored <==> verb !in ["get", "quit", "reset", "up", "down", "left", "right"]
    ensures c.Move? ==> DirName(c.dir) == verb
    ensures !c.Chat?
  {
    if verb == "get" then Get
    else if verb == "quit" then Quit
    else if verb == "reset" then Reset
    else if verb == "up" then Move(Up)
    else if verb == "down" then Move(Down)
    else if verb == "left" then Move(Left)
    else if verb == "right" then Move(Right)
    else Ignored
  }

  /** The dispatch on `data_HEADER` / `data_CONTENT`. */
  function Parse(command: string): (c: Command)
    ensures ':' !in command ==> c == Ignored
  {
    match SplitAtFirst(command, ':')
    case None => Ignored
    case Some((header, content)) =>
      if header == "CONTROL" then ControlVerb(content)
      else if header == "CHAT" then Chat(content)
      else Ignored
  }

  /** Everything after the first ':' of a CHAT command is its code, colons included. */
  lemma ParseChat(content: string)
    ensures Parse("CHAT:" + content) == Chat(content)
  {
    SplitAtFirstOf("CHAT", ':', content);
    assert "CHAT:" + content == "CHAT" + [':'] + content;
  }

  /** A CONTROL command is read by its whole content. */
  lemma ParseControl(verb: string)
    ensures Parse("CONTROL:" + verb) == ControlVerb(verb)
  {
    SplitAtFirstOf("CONTROL", ':', verb);
    assert "CONTROL:" + verb == "CONTROL" + [':'] + verb;
  }

  /** A header other than CONTROL and CHAT makes the command a no-op, whatever follows it. */
  lemma ParseUnknownHeader(header: string, content: string)
    requires ':' !in header && header != "CONTROL" && header != "CHAT"
    ensures Parse(header + ":" + content) == Ignored
  {
    SplitAtFirstOf(header, ':', content);
    assert header + ":" + content == header + [':'] + content;
  }

  /** A CONTROL verb outside the known seven makes the command a no-op. */
  lemma ParseUnknownVerb(verb: string)
    requires verb !in ["get", "quit", "reset", "up", "down", "left", "right"]
    ensures Parse("CONTROL:" + verb) == Ignored
  {
    ParseControl(verb);
  }

  /** A command read as a CONTROL verb is "CONTROL:" followed by that verb. */
  lemma ControlCommandShape(command: string)
    requires Parse(command).Get? || Parse(command).Quit? || Parse(command).Reset? || Parse(command).Move?
    ensures SplitAtFirst(command, ':').Some?
    ensures var verb := SplitAtFirst(command, ':').value.1;
      command == "CONTROL:" + verb && ControlVerb(verb) == Parse(command)
  {
    var (header, verb) := SplitAtFirst(command, ':').value;
    assert header == "CONTROL";
    assert command == "CONTROL" + [':'] + verb;
  }

  /** A command read as a movement is "CONTROL:" followed by the direction's name. */
  lemma MoveCommandShape(command: string)
    requires Parse(command).Move?
    ensures command == "CONTROL:" + DirName(Parse(command).dir)
  {
    ControlCommandShape(command);
    var verb := SplitAtFirst(command, ':').value.1;
    assert ControlVerb(verb) == Move(Parse(command).dir);
    assert verb == DirName(Parse(command).dir);
  }

  /** The command that queues a direction is exactly "CONTROL:" followed by its name. */
  lemma ParseMove(command: string, d: Direction)
    ensures Parse(command) == Move(d) <==> command == "CONTROL:" + DirName(d)
  {
    if command == "CONTROL:" + DirName(d) {
      ParseControl(DirName(d));
    }
    if Parse(command) == Move(d) {
      MoveCommandShape(command);
    }
  }

  lemma QuitCommandParses()
    ensures Parse("CONTROL:quit") == Quit
  {
    ParseControl("quit");
    assert "CONTROL:" + "quit" == "CONTROL:quit";
  }

  lemma QuitCommandShape(command: string)
    requires Parse(command) == Quit
    ensures command == "CONTROL:quit"
  {
    ControlCommandShape(command);
    assert "CONTROL:" + "quit" == "CONTROL:quit";
  }

  /** The command that ends the session is exactly "CONTROL:quit". */
  lemma ParseQuit(command: string)
    ensures Parse(command) == Quit <==> command == "CONTROL:quit"
  {
    QuitCommandParses();
    if Parse(command) == Quit {
      QuitCommandShape(command);
    }
  }

  /** The CONTROL verb of the commands that carry no argument. */
  function PlainVerb(c: Command): (verb: string)
    requires c == Get || c == Quit || c == Reset
    ensures ControlVerb(verb) == c
  {
    if c == Get then "get" else if c == Quit then "quit" else "reset"
  }

  /** get, quit and reset each come from exactly one command: "CONTROL:" followed by their verb. */
  lemma ParsePlainVerb(command: string, c: Command)
    requires c == Get || c == Quit || c == Reset
    ensures Parse(command) == c <==> command == "CONTROL:" + PlainVerb(c)
  {
    ParseControl(PlainVerb(c));
    if Parse(command) == c {
      ControlCommandShape(command);
      var verb := SplitAtFirst(command, ':').value.1;
      assert ControlVerb(verb) == c;
      assert verb == PlainVerb(c);
    }
  }

  /** The command that only asks for a snapshot is exactly "CONTROL:get". */
  lemma ParseGet(command: string)
    ensures Parse(command) == Get <==> command == "CONTROL:get"
  {
    ParsePlainVerb(command, Get);
    assert "CONTROL:" + "get" == "CONTROL:get";
  }

  /** The command that resets the player's snake is exactly "CONTROL:reset". */
  lemma ParseReset(command: string)
    ensures Parse(command) == Reset <==> command == "CONTROL:reset"
  {
    ParsePlainVerb(command, Reset);
    assert "CONTROL:" + "reset" == "CONTROL:reset";
  }

  /** The example of a chat code that itself contains a colon. */
  lemma ParseChatWithColon()
    ensures Parse("CHAT:Z:x") == Chat("Z:x")
  {
    ParseChat("Z:x");
    assert "CHAT:" + "Z:x" == "CHAT:Z:x";
  }
}
