/**
 * The values the dispatcher and the parsers exchange: a registered command's
 * declared data and the context parsed out of one input.
 */
module Commands {

  /**
   * A command as the dispatcher sees it: the aliases it answers to, the
   * source type(s) it accepts ("All", one tag, or tags joined by `|`) and its
   * usage text. The command classes themselves are not part of this model;
   * assuming they keep Java's default `equals`, which compares identities,
   * `id` stands for the object's identity when the registry looks a command up.
   */
  datatype Command = Command(id: nat, aliases: seq<string>, commandType: string, usage: string)

  /** One parsed input: command name, parameters, free-text value, source type. */
  datatype Context = Context(
    commandName: string,
    parameters: map<string, string>,
    value: string,
    sourceType: string)
}
