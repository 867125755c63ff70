// The policy document of an entry: its command templates and their names.
module Policies {
  import opened Results
  import opened Orders

  // "kpexec.policy.v1", the one schema this release understands.
  const POLICY_SCHEMA := "kpexec.policy.v1"

  datatype Command = Command(name: string, exe: string, sha256: Option<string>, prefix: seq<string>)

  // `rest` stands for the parts no operation here looks at (environment, injection kind).
  datatype Policy = Policy(schema: string, description: string, inject: string,
                           commands: seq<Command>, maxStdout: nat, maxStderr: nat, rest: string)

  // A policy field holds JSON: a document of the right shape, or something else.
  datatype PolicyText = Malformed | Document(policy: Policy)

  function Parse(text: PolicyText): Option<Policy> {
    if text.Document? && text.policy.schema == POLICY_SCHEMA then Some(text.policy) else None
  }

  function NewPolicy(description: string, inject: string): Policy {
    Policy(POLICY_SCHEMA, description, inject, [], 200_000, 50_000, "")
  }

  // The first command of that name.
  function FindCommand(commands: seq<Command>, name: string): Option<Command> {
    if commands == [] then None
    else if commands[0].name == name then Some(commands[0])
    else FindCommand(commands[1..], name)
  }

  function Names(commands: seq<Command>): seq<string> {
    seq(|commands|, i requires 0 <= i < |commands| => commands[i].name)
  }

  predicate UniqueNames(commands: seq<Command>) {
    forall i, j | 0 <= i < j < |commands| :: commands[i].name != commands[j].name
  }

  // One or more commands, no two of the same name.
  predicate WellFormed(p: Policy) {
    p.schema == POLICY_SCHEMA && p.commands != [] && UniqueNames(p.commands)
  }

  lemma {:induction false} FindCommandMeaning(commands: seq<Command>, name: string)
    ensures match FindCommand(commands, name)
            case Some(c) => c in commands && c.name == name
            case None => forall c | c in commands :: c.name != name
  {
    if commands != [] {
      FindCommandMeaning(commands[1..], name);
      assert forall c :: c in commands <==> c == commands[0] || c in commands[1..];
    }
  }

  // Of several commands of one name it is the first.
  lemma {:induction false} FindCommandFirst(commands: seq<Command>, k: nat)
    requires k < |commands| && forall i | 0 <= i < k :: commands[i].name != commands[k].name
    ensures FindCommand(commands, commands[k].name) == Some(commands[k])
  {
    if k > 0 {
      FindCommandFirst(commands[1..], k - 1);
    }
  }

  // With unique names the first command of a name is the only one.
  lemma {:induction false} FindCommandUnique(commands: seq<Command>, i: nat)
    requires UniqueNames(commands) && i < |commands|
    ensures FindCommand(commands, commands[i].name) == Some(commands[i])
  {
    FindCommandMeaning(commands, commands[i].name);
    var c := FindCommand(commands, commands[i].name).value;
    var k :| 0 <= k < |commands| && commands[k] == c;
  }

  // Every command is the one found under its name exactly when commands of equal name are
  // equal.
  lemma FoundExactly(commands: seq<Command>)
    ensures (forall i | 0 <= i < |commands| :: FindCommand(commands, commands[i].name) == Some(commands[i]))
            <==> (forall i, j | 0 <= i < |commands| && 0 <= j < |commands| ::
                    commands[i].name == commands[j].name ==> commands[i] == commands[j])
  {
    forall i | 0 <= i < |commands|
      ensures var found := FindCommand(commands, commands[i].name);
              found.Some? && found.value in commands && found.value.name == commands[i].name
    {
      FindCommandMeaning(commands, commands[i].name);
    }
  }

  // With a repeated name the second command is never found.
  lemma SecondIsUnreachable()
    ensures var commands := [Command("sync", "/usr/bin/a", None, []), Command("sync", "/usr/bin/b", None, [])];
            commands[0] != commands[1] && forall name :: FindCommand(commands, name) != Some(commands[1])
  {
    var commands := [Command("sync", "/usr/bin/a", None, []), Command("sync", "/usr/bin/b", None, [])];
    assert commands[0].exe[9] != commands[1].exe[9];
    assert commands[0] != commands[1];
    forall name ensures FindCommand(commands, name) != Some(commands[1]) {
      FindCommandMeaning(commands, name);
      assert FindCommand(commands, "sync") == Some(commands[0]);
    }
  }

  // The names two commands share, in order.
  method DuplicateCommandNames(commands: seq<Command>) returns (names: seq<string>)
    ensures names == Duplicates(Names(commands))
    ensures names == [] <==> UniqueNames(commands)
  {
    DuplicateNamesMeaning(commands);
    names := Repeated(Names(commands));
  }

  lemma DuplicateNamesMeaning(commands: seq<Command>)
    ensures Ascending(Duplicates(Names(commands)))
    ensures Duplicates(Names(commands)) == [] <==> UniqueNames(commands)
    ensures forall n :: n in Duplicates(Names(commands)) <==>
              exists i, j :: 0 <= i < j < |commands| && commands[i].name == commands[j].name == n
  {
    var all := Names(commands);
    var names := Duplicates(all);
    forall n
      ensures n in names <==>
                exists i, j :: 0 <= i < j < |commands| && commands[i].name == commands[j].name == n
    {
      TallyMeaning(all, n);
      if i, j :| 0 <= i < j < |all| && all[i] == all[j] == n {
        assert commands[i].name == commands[j].name == n;
      }
      if i, j :| 0 <= i < j < |commands| && commands[i].name == commands[j].name == n {
        assert all[i] == all[j] == n;
      }
    }
    if names != [] {
      assert names[0] in names;
    }
    if !UniqueNames(commands) {
      var i, j :| 0 <= i < j < |commands| && commands[i].name == commands[j].name;
      assert commands[i].name in names;
    }
  }
}
