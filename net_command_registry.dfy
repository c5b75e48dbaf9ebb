// src/net/classicube/api/CommandRegistry.java: commands registered by
// lower-cased name and dispatched from a chat or console line, with
// operator-only commands refused to other senders.

module NetCommandRegistry {
  import opened Wrappers
  import opened JavaText
  import opened JavaSplit

  /** A command object; what it does when run is the `execute` parameter of
      `ExecuteCommand`. */
  datatype Command = Command(handle: nat)

  /** `RegisteredCommand`: the command and whether only operators may run it. */
  datatype Registered = Registered(command: Command, requiresOp: bool)

  const UnknownMessage: string := "Unknown command. Type 'help' for available commands."
  const DeniedMessage: string := "You don't have permission to use this command."
  const ErrorPrefix: string := "Error executing command: "

  /** What a line asks for: the lower-cased first word and the remaining words. */
  datatype Invocation = Invocation(name: string, args: seq<string>)

  /** `input.split("\\s+", 2)`, then the name lower-cased and the rest split on
      whitespace (no arguments when there is no rest). */
  function Parse(input: string): (r: Invocation)
    ensures NoSpace(r.name) && Lower(r.name) == r.name
  {
    var split := SplitSpaceOnce(input);
    LowerIdempotent(split[0]);
    Invocation(Lower(split[0]), if |split| > 1 then SplitSpace(split[1]) else [])
  }

  /** Which branch `executeCommand` takes. */
  datatype Outcome = Unknown | Denied | Ran(command: Command, args: seq<string>)

  /** A line made of words joined by single spaces parses into its first word,
      lower-cased, and the other words as the arguments. */
  lemma ParseWords(words: seq<string>)
    requires |words| >= 1
    requires forall i :: 0 <= i < |words| ==> words[i] != [] && NoSpace(words[i])
    ensures Parse(Join(words, " ")) == Invocation(Lower(words[0]), words[1..])
  {
    var input := Join(words, " ");
    if |words| == 1 {
      assert FirstSpace(input).None?;
    } else {
      SplitSpaceOnceOfJoin(words);
      SplitSpaceOfJoin(words[1..]);
    }
  }

  class CommandRegistry {
    var commands: map<string, Registered>

    constructor()
      ensures commands == map[]
    {
      commands := map[];
    }

    /** `registerCommand`: stored under the lower-cased name, replacing any
        earlier command of that name. */
    method RegisterCommand(name: string, requiresOp: bool, command: Command)
      modifies this
      ensures commands == old(commands)[Lower(name) := Registered(command, requiresOp)]
    {
      commands := commands[Lower(name) := Registered(command, requiresOp)];
    }

    /** `executeCommand`: the sender is described by whether it is an operator;
        `execute` stands for running the command, an error carrying the message
        of the exception it throws. Exactly one message goes back to the sender. */
    method ExecuteCommand(isOp: bool, input: string, execute: (Command, seq<string>) -> Result<string>)
      returns (outcome: Outcome, message: string)
      ensures var inv := Parse(input);
        && (outcome.Unknown? <==> inv.name !in commands)
        && (outcome.Denied? <==> inv.name in commands && commands[inv.name].requiresOp && !isOp)
        && (outcome.Unknown? ==> message == UnknownMessage)
        && (outcome.Denied? ==> message == DeniedMessage)
        && (outcome.Ran? ==> outcome.command == commands[inv.name].command && outcome.args == inv.args)
        && (outcome.Ran? ==> match execute(outcome.command, outcome.args)
                             case Ok(reply) => message == reply
                             case Err(e) => message == ErrorPrefix + e)
    {
      var inv := Parse(input);
      if inv.name !in commands {
        return Unknown, UnknownMessage;
      }
      var command := commands[inv.name];
      if command.requiresOp && !isOp {
        return Denied, DeniedMessage;
      }
      outcome := Ran(command.command, inv.args);
      match execute(command.command, inv.args) {
        case Ok(reply) => message := reply;
        case Err(e) => message := ErrorPrefix + e;
      }
    }
  }

  /** A registered name runs its command whatever the casing it is typed in, as
      long as the sender may run it. */
  lemma RegisteredNameRuns(commands: map<string, Registered>, name: string, words: seq<string>)
    requires |words| >= 1 && Lower(words[0]) == Lower(name) && Lower(name) in commands
    requires forall i :: 0 <= i < |words| ==> words[i] != [] && NoSpace(words[i])
    ensures Parse(Join(words, " ")).name in commands
    ensures Parse(Join(words, " ")).args == words[1..]
  {
    ParseWords(words);
  }
}
