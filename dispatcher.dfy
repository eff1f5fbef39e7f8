/**
 * The command registry and the parse, match, validate, run pipeline.
 * The parser, `validateUsage` and `run` followed by the variable renderer
 * belong to code outside this component; they are function parameters here.
 */
module Dispatcher {
  import opened Wrappers
  import opened JavaString
  import opened Commands

  const ParseFailure: string := "Command could not be parsed."
  const NotFound: string := "The command couldn't be found."

  /**
   * The type rule as the code evaluates it. "All" matches every source type;
   * otherwise the two types may be equal ignoring case; otherwise, when the
   * command type contains `|`, `split("|")` cuts it into single characters, so
   * only a source type equal (ignoring case) to one of those characters matches.
   */
  function TypeMatches(commandType: string, contextType: string): (r: bool)
    ensures r ==> commandType == "All" || |contextType| == |commandType| || |contextType| == 1
  {
    || commandType == "All"
    || EqualsIgnoreCase(commandType, contextType)
    || ('|' in commandType
        && exists i :: 0 <= i < |commandType| && EqualsIgnoreCase([commandType[i]], contextType))
  }

  /** checkType: the three branches, the last one looping over the split tokens. */
  method CheckType(commandType: string, contextType: string) returns (matched: bool)
    ensures matched == TypeMatches(commandType, contextType)
  {
    if commandType == "All" {
      return true;
    } else if EqualsIgnoreCase(commandType, contextType) {
      return true;
    } else if '|' in commandType {
      var types := SplitOnBar(commandType);
      ConcatOfSingletons(types);
      var foundType := false;
      for k := 0 to |types|
        invariant foundType <==> exists j :: 0 <= j < k && EqualsIgnoreCase(types[j], contextType)
      {
        if EqualsIgnoreCase(types[k], contextType) {
          foundType := true;
        }
      }
      assert forall j :: 0 <= j < |types| ==> types[j] == [commandType[j]];
      return foundType;
    }
    return false;
  }

  /** A type without `|` other than "All" matches exactly the types equal to it ignoring case. */
  lemma PlainTypeMatchesIgnoringCase(commandType: string, contextType: string)
    requires commandType != "All" && '|' !in commandType
    ensures TypeMatches(commandType, contextType) <==> EqualsIgnoreCase(commandType, contextType)
  {
  }

  /**
   * Past the first two tests, a type with `|` matches only a one-character
   * source type, one that equals some character of the command type once
   * both are lowered.
   */
  lemma BarBranchNeedsOneCharacter(commandType: string, contextType: string)
    requires commandType != "All" && !EqualsIgnoreCase(commandType, contextType)
    requires '|' in commandType
    ensures TypeMatches(commandType, contextType) <==>
      |contextType| == 1
      && exists i :: 0 <= i < |commandType| && LowerChar(commandType[i]) == LowerChar(contextType[0])
  {
    if TypeMatches(commandType, contextType) {
      var i :| 0 <= i < |commandType| && EqualsIgnoreCase([commandType[i]], contextType);
      assert |Lower(contextType)| == |Lower([commandType[i]])| == 1;
      assert Lower([commandType[i]])[0] == Lower(contextType)[0];
    }
    if |contextType| == 1 {
      forall i | 0 <= i < |commandType| && LowerChar(commandType[i]) == LowerChar(contextType[0])
        ensures EqualsIgnoreCase([commandType[i]], contextType)
      {
        assert Lower([commandType[i]]) == [LowerChar(commandType[i])];
        assert Lower(contextType) == [LowerChar(contextType[0])];
      }
    }
  }

  /** "Discord|Terminal" does not accept "Terminal": the split leaves one-character tokens. */
  lemma DiscordOrTerminalRejectsTerminal()
    ensures !TypeMatches("Discord|Terminal", "Terminal")
  {
    assert |Lower("Discord|Terminal")| != |Lower("Terminal")|;
    assert "Discord|Terminal"[7] == '|';
    BarBranchNeedsOneCharacter("Discord|Terminal", "Terminal");
  }

  /**
   * Some alias equals the command name once both are lowered; an alias
   * spelled exactly like the name always answers.
   */
  function AliasMatches(aliases: seq<string>, name: string): (r: bool)
    ensures r ==> exists a :: a in aliases && |a| == |name|
    ensures name in aliases ==> r
  {
    exists a :: a in aliases && EqualsIgnoreCase(a, name)
  }

  /**
   * A command that passes the type filter and answers to the context's name;
   * an "All" command answers to any context that names one of its aliases.
   */
  function Handles(c: Command, ctx: Context): (r: bool)
    ensures c.commandType == "All" && ctx.commandName in c.aliases ==> r
  {
    TypeMatches(c.commandType, ctx.sourceType) && AliasMatches(c.aliases, ctx.commandName)
  }

  /**
   * The position of the command `execute` ends up with in `command[0]`, or
   * -1: every handler met in registration order overwrites the previous one,
   * so it is the last handler.
   */
  function LastHandler(registry: seq<Command>, ctx: Context): (k: int)
    ensures -1 <= k < |registry|
    ensures k >= 0 ==> Handles(registry[k], ctx)
    ensures forall j :: k < j < |registry| ==> !Handles(registry[j], ctx)
  {
    if registry == [] then -1
    else if Handles(registry[|registry| - 1], ctx) then |registry| - 1
    else LastHandler(registry[..|registry| - 1], ctx)
  }

  /** The command `execute` selects, if any. */
  function Selected(registry: seq<Command>, ctx: Context): (r: Option<Command>)
    ensures r.None? <==> forall i :: 0 <= i < |registry| ==> !Handles(registry[i], ctx)
    ensures r.Some? ==> r.value in registry && Handles(r.value, ctx)
  {
    var k := LastHandler(registry, ctx);
    if k < 0 then None else Some(registry[k])
  }

  /**
   * What `execute` answers for a parse result, a registry and the two
   * plug-ins: one of the two fixed texts, or what a registered command
   * renders or its usage text.
   */
  function Response(
    registry: seq<Command>, parsed: Option<Context>,
    validate: (Command, Context) -> bool, runRender: (Command, Context) -> string): (answer: string)
    ensures answer == ParseFailure || answer == NotFound
      || (parsed.Some? && exists c :: c in registry && (answer == c.usage || answer == runRender(c, parsed.value)))
  {
    match parsed
    case None => ParseFailure
    case Some(ctx) =>
      match Selected(registry, ctx)
      case None => NotFound
      case Some(c) => if validate(c, ctx) then runRender(c, ctx) else c.usage
  }

  /** An unparsable input gets the parse-failure text whatever the registry and plug-ins. */
  lemma UnparsedIgnoresRegistry(
    r1: seq<Command>, r2: seq<Command>,
    v1: (Command, Context) -> bool, v2: (Command, Context) -> bool,
    run1: (Command, Context) -> string, run2: (Command, Context) -> string)
    ensures Response(r1, None, v1, run1) == ParseFailure
    ensures Response(r1, None, v1, run1) == Response(r2, None, v2, run2)
  {
  }

  /** With no handler for the context, the answer is the not-found text. */
  lemma NoHandlerIsNotFound(
    registry: seq<Command>, ctx: Context,
    validate: (Command, Context) -> bool, runRender: (Command, Context) -> string)
    requires forall i :: 0 <= i < |registry| ==> !Handles(registry[i], ctx)
    ensures Response(registry, Some(ctx), validate, runRender) == NotFound
  {
  }

  /**
   * The last handler in registration order is the one asked to validate; it
   * runs when it accepts the context and its usage text is returned otherwise.
   */
  lemma LastHandlerAnswers(
    registry: seq<Command>, ctx: Context, i: nat,
    validate: (Command, Context) -> bool, runRender: (Command, Context) -> string)
    requires i < |registry| && Handles(registry[i], ctx)
    requires forall j :: i < j < |registry| ==> !Handles(registry[j], ctx)
    ensures Selected(registry, ctx) == Some(registry[i])
    ensures Response(registry, Some(ctx), validate, runRender)
            == if validate(registry[i], ctx) then runRender(registry[i], ctx) else registry[i].usage
  {
    var k := LastHandler(registry, ctx);
    assert !(k < i) && !(i < k);
  }

  /**
   * `run` matters only for a selected command that accepts the context: two
   * `run` plug-ins give different answers only in that case.
   */
  lemma RunOnlyWhenValid(
    registry: seq<Command>, parsed: Option<Context>, validate: (Command, Context) -> bool,
    run1: (Command, Context) -> string, run2: (Command, Context) -> string)
    requires Response(registry, parsed, validate, run1) != Response(registry, parsed, validate, run2)
    ensures parsed.Some? && Selected(registry, parsed.value).Some?
    ensures validate(Selected(registry, parsed.value).value, parsed.value)
  {
  }

  /**
   * getCommandByAlias: a command of the registry listing `alias` exactly and
   * whose type is exactly `commandType`, or None when there is none. The
   * source uses `findAny`, so which of several such commands comes back is
   * not promised.
   */
  function CommandByAlias(registry: seq<Command>, alias: string, commandType: string): (r: Option<Command>)
    ensures r.Some? ==> r.value in registry && alias in r.value.aliases && r.value.commandType == commandType
    ensures r.None? <==> forall c :: c in registry ==> !(alias in c.aliases && c.commandType == commandType)
  {
    if registry == [] then None
    else if alias in registry[0].aliases && registry[0].commandType == commandType then Some(registry[0])
    else CommandByAlias(registry[1..], alias, commandType)
  }

  /** `sub` is `s` with some elements left out and the rest in their order. */
  predicate IsSubsequence<T(==)>(sub: seq<T>, s: seq<T>)
    decreases |s|
  {
    sub == [] || (s != [] && if sub[0] == s[0] then IsSubsequence(sub[1..], s[1..]) else IsSubsequence(sub, s[1..]))
  }

  /**
   * getCommands: the commands whose type equals `commandType` exactly, each as
   * often as it is registered, in registration order.
   */
  function CommandsOfType(registry: seq<Command>, commandType: string): (r: seq<Command>)
    ensures forall c :: c in r ==> c.commandType == commandType
    ensures forall c: Command :: c.commandType == commandType ==> multiset(r)[c] == multiset(registry)[c]
    ensures IsSubsequence(r, registry)
  {
    if registry == [] then []
    else
      var rest := CommandsOfType(registry[1..], commandType);
      assert registry == [registry[0]] + registry[1..];
      if registry[0].commandType == commandType then
        assert ([registry[0]] + rest)[1..] == rest;
        [registry[0]] + rest
      else
        assert rest == [] || rest[0] != registry[0];
        rest
  }

  predicate NoDuplicates<T(==)>(s: seq<T>)
  {
    forall i, j :: 0 <= i < j < |s| ==> s[i] != s[j]
  }

  /** ArrayList.indexOf(Object): the position of the first element equal to `x`. */
  function FirstIndex<T(==)>(s: seq<T>, x: T): (i: nat)
    requires x in s
    ensures i < |s| && s[i] == x && x !in s[..i]
  {
    if s[0] == x then 0
    else
      var i := FirstIndex(s[1..], x);
      assert s[..i + 1] == [s[0]] + s[1..][..i];
      i + 1
  }

  /**
   * ArrayList.remove(Object): finds the first element equal to `x` and
   * removes it at that position; without one the list is unchanged.
   */
  function RemoveFirst<T(==)>(s: seq<T>, x: T): (r: seq<T>)
    ensures multiset(r) == multiset(s) - multiset{x}
  {
    if x in s then
      var i := FirstIndex(s, x);
      assert s == s[..i] + [x] + s[i + 1..];
      s[..i] + s[i + 1..]
    else s
  }

  /** Removal shifts every element after the first `x` one place to the front. */
  lemma RemoveFirstAt<T>(s: seq<T>, x: T)
    requires x in s
    ensures |RemoveFirst(s, x)| == |s| - 1
    ensures forall k :: 0 <= k < |s| - 1 ==>
      RemoveFirst(s, x)[k] == s[if k < FirstIndex(s, x) then k else k + 1]
  {
    var i := FirstIndex(s, x);
    assert RemoveFirst(s, x) == s[..i] + s[i + 1..];
  }

  /**
   * Removing a registered command from a duplicate-free registry deletes its
   * only entry and keeps every other command, in the same order.
   */
  lemma RemoveFromDuplicateFree<T>(s: seq<T>, x: T)
    requires NoDuplicates(s) && x in s
    ensures NoDuplicates(RemoveFirst(s, x))
    ensures x !in RemoveFirst(s, x) && |RemoveFirst(s, x)| == |s| - 1
    ensures forall y :: y != x ==> (y in RemoveFirst(s, x) <==> y in s)
  {
    var i := FirstIndex(s, x);
    var r := RemoveFirst(s, x);
    RemoveFirstAt(s, x);
    forall a, b | 0 <= a < b < |r| ensures r[a] != r[b] {
    }
    forall y | y != x ensures y in r <==> y in s {
      if y in s {
        var k :| 0 <= k < |s| && s[k] == y;
        assert y == r[if k < i then k else k - 1];
      }
    }
  }

  /** The registry: an ArrayList of commands changed in place by add and remove. */
  class CommandDispatcher {
    var commands: seq<Command>

    /**
     * The registry never holds two equal commands, so `indexOf`, and with it
     * `remove(Object)`, finds each registered command at its own position.
     */
    ghost function Valid(): (r: bool)
      reads this
      ensures r ==> forall i :: 0 <= i < |commands| ==> FirstIndex(commands, commands[i]) == i
    {
      NoDuplicates(commands)
    }

    constructor ()
      ensures Valid() && commands == []
    {
      commands := [];
    }

    /** addCommand: appends a command that is not registered yet; a repeat is ignored. */
    method AddCommand(command: Command)
      requires Valid()
      modifies this
      ensures Valid()
      ensures command in old(commands) ==> commands == old(commands)
      ensures command !in old(commands) ==> commands == old(commands) + [command]
    {
      if command in commands {
        // registration conflict: only logged
      } else {
        commands := commands + [command];
      }
    }

    /** removeCommand: deletes a registered command, keeping the others in order. */
    method RemoveCommand(command: Command)
      requires Valid()
      modifies this
      ensures Valid()
      ensures command !in commands
      ensures command !in old(commands) ==> commands == old(commands)
      ensures command in old(commands) ==> commands == RemoveFirst(old(commands), command)
      ensures forall c :: c != command ==> (c in commands <==> c in old(commands))
    {
      if command !in commands {
        // removal of an absent command: only logged
      } else {
        RemoveFromDuplicateFree(commands, command);
        commands := RemoveFirst(commands, command);
      }
    }

    /**
     * execute: parses the message, scans the registry in order keeping the
     * last command that passes the type check and answers to the name, then
     * validates and runs it.
     */
    method Execute(
      parse: string -> Option<Context>, message: string,
      validate: (Command, Context) -> bool, runRender: (Command, Context) -> string)
      returns (response: string)
      ensures response == Response(commands, parse(message), validate, runRender)
    {
      var parsed := parse(message);
      if parsed.None? {
        return ParseFailure;
      }
      var ctx := parsed.value;
      var command: Option<Command> := None;
      for i := 0 to |commands|
        invariant command == Selected(commands[..i], ctx)
      {
        var e := commands[i];
        var typeOk := CheckType(e.commandType, ctx.sourceType);
        if typeOk {
          if AliasMatches(e.aliases, ctx.commandName) {
            command := Some(e);
          }
        }
        assert commands[..i + 1][..i] == commands[..i];
      }
      assert commands[..|commands|] == commands;
      match command {
        case None =>
          response := NotFound;
        case Some(c) =>
          if validate(c, ctx) {
            response := runRender(c, ctx);
          } else {
            response := c.usage;
          }
      }
    }
  }
}
