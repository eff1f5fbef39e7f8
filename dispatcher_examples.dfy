/**
 * The dispatcher at work: registration, the terminal parser feeding
 * `execute`, and which of several commands answers.
 */
module DispatcherExamples {
  import opened Wrappers
  import opened JavaString
  import opened Commands
  import opened Dispatcher
  import opened TerminalParser
  import opened TerminalExamples

  /** A command appended after the others that handles the context is the one selected. */
  lemma LaterRegistrationWins(registry: seq<Command>, c: Command, ctx: Context)
    requires Handles(c, ctx)
    ensures Selected(registry + [c], ctx) == Some(c)
  {
    LastHandlerAnswers(registry + [c], ctx, |registry|, (x, y) => true, (x, y) => "");
  }

  const Ping: Command := Command(1, ["ping"], "Terminal", "Usage: ping")
  const Pong: Command := Command(2, ["Ping", "p"], "All", "Usage: ping [target]")

  const PingContext: Context := Context("PING", map[], "", "Terminal")

  /** The terminal line `PING` is the context of command name `PING` and nothing else. */
  lemma PingLine()
    ensures TerminalContext("PING") == PingContext
  {
    SingleWordContext("PING");
  }

  /** `PING` lowered is `ping`, and so are the aliases `ping` and `Ping`. */
  lemma PingLowered()
    ensures Lower("PING") == "ping" && Lower("Ping") == "ping" && Lower("ping") == "ping"
  {
  }

  /** Both commands answer to `PING` typed at the terminal: aliases compare ignoring case. */
  lemma BothHandlePing()
    ensures Handles(Ping, PingContext) && Handles(Pong, PingContext)
  {
    PingLowered();
    assert "ping" in Ping.aliases && EqualsIgnoreCase("ping", "PING");
    assert "Ping" in Pong.aliases && EqualsIgnoreCase("Ping", "PING");
  }

  /** Adding the same command twice registers it once. */
  method RegisterTwice(c: Command) returns (registered: seq<Command>)
    ensures registered == [c]
  {
    var dispatcher := new CommandDispatcher();
    dispatcher.AddCommand(c);
    dispatcher.AddCommand(c);
    registered := dispatcher.commands;
  }

  /** With both commands registered, the later one, `Pong`, answers `PING`. */
  lemma PingResponse(validate: (Command, Context) -> bool, runRender: (Command, Context) -> string)
    ensures Response([Ping, Pong], Some(PingContext), validate, runRender)
      == if validate(Pong, PingContext) then runRender(Pong, PingContext) else "Usage: ping [target]"
  {
    BothHandlePing();
    LaterRegistrationWins([Ping], Pong, PingContext);
    assert [Ping] + [Pong] == [Ping, Pong];
  }

  /**
   * `PING` at the terminal with both commands registered: the later one,
   * `Pong`, answers, with its usage text unless it accepts the context.
   */
  method PingAtTerminal(validate: (Command, Context) -> bool, runRender: (Command, Context) -> string)
    returns (response: string)
    ensures response
      == if validate(Pong, PingContext) then runRender(Pong, PingContext) else "Usage: ping [target]"
  {
    var dispatcher := new CommandDispatcher();
    dispatcher.AddCommand(Ping);
    dispatcher.AddCommand(Pong);
    assert dispatcher.commands == [Ping, Pong];
    PingLine();
    PingResponse(validate, runRender);
    response := dispatcher.Execute(m => Some(TerminalContext(m)), "PING", validate, runRender);
  }

  /** Removing `Ping` again leaves `Pong` alone in the registry. */
  method RegisterThenRemove() returns (registered: seq<Command>)
    ensures registered == [Pong]
  {
    var dispatcher := new CommandDispatcher();
    dispatcher.AddCommand(Ping);
    dispatcher.AddCommand(Pong);
    dispatcher.RemoveCommand(Ping);
    registered := dispatcher.commands;
  }
}
