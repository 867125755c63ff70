// Executable pins: the digest recorded for a command against the file found at its path.
module Pins {
  import opened Bytes
  import opened Results
  import opened Policies

  // What one look at the file system would answer, by path. `canonical` resolves links;
  // `mutable` holds the canonical paths the current user could change or replace.
  datatype FileSystem = FileSystem(
    canonical: map<string, string>,
    regular: map<string, bool>,
    contents: map<string, Text>,
    executable: set<string>,
    mutable_: set<string>,
    digest: Text -> string)

  datatype Pin = Pin(canonical: string, sha256: string, size: nat)

  // ---- what a path is, said of the file system alone --------------------------------------

  // It is absolute and leads to a regular file that can be read.
  predicate Hashable(exe: string, fs: FileSystem) {
    && |exe| > 0 && exe[0] == '/' && exe in fs.canonical
    && var path := fs.canonical[exe]; path in fs.regular && fs.regular[path] && path in fs.contents
  }

  function DigestAt(exe: string, fs: FileSystem): string
    requires Hashable(exe, fs)
  {
    fs.digest(fs.contents[fs.canonical[exe]])
  }

  // A pin of it holds: nobody but an administrator can replace the file.
  predicate Pinnable(exe: string, fs: FileSystem) {
    Hashable(exe, fs) && fs.canonical[exe] !in fs.mutable_
  }

  // The pin a command carries, when it is up to date and can be enforced.
  predicate Current(c: Command, fs: FileSystem) {
    Pinnable(c.exe, fs) && c.sha256 == Some(DigestAt(c.exe, fs))
  }

  // ---- computing a pin ---------------------------------------------------------------------

  predicate IsAbsolute(exe: string) {
    exe != [] && exe[0] == '/'
  }

  // Canonicalize, require a regular file, read and hash it.
  function Compute(exe: string, fs: FileSystem): Result<Pin> {
    if !IsAbsolute(exe) || exe !in fs.canonical then Err(MalformedPolicy)
    else
      var path := fs.canonical[exe];
      if path !in fs.regular || !fs.regular[path] || path !in fs.contents then Err(MalformedPolicy)
      else Ok(Pin(path, fs.digest(fs.contents[path]), |fs.contents[path]|))
  }

  function RequireEnforceable(path: string, fs: FileSystem): Result<()> {
    if path in fs.mutable_ then Err(MalformedPolicy) else Ok(())
  }

  function LowerChar(c: char): char {
    if 'A' <= c <= 'Z' then c + ' ' else c
  }

  predicate EqIgnoreCase(a: string, b: string) {
    |a| == |b| && forall i | 0 <= i < |a| :: LowerChar(a[i]) == LowerChar(b[i])
  }

  // A pin is what the file system shows at the path, and no pin needs more than a path that can
  // be hashed.
  lemma ComputeExactly(exe: string, fs: FileSystem)
    ensures Compute(exe, fs)
            == if Hashable(exe, fs) then Ok(Pin(fs.canonical[exe], DigestAt(exe, fs), |fs.contents[fs.canonical[exe]]|))
               else Err(MalformedPolicy)
    ensures Compute(exe, fs).Ok? ==>
              (RequireEnforceable(Compute(exe, fs).value.canonical, fs).Ok? <==> fs.canonical[exe] !in fs.mutable_)
  {
  }

  // Position by position the same, but for the case of the twenty-six letters.
  lemma EqIgnoreCaseExactly(a: string, b: string)
    ensures EqIgnoreCase(a, b) <==>
              && |a| == |b|
              && forall i | 0 <= i < |a| ::
                   || a[i] == b[i]
                   || ('a' <= a[i] <= 'z' && b[i] as int == a[i] as int - 32)
                   || ('a' <= b[i] <= 'z' && a[i] as int == b[i] as int - 32)
  {
    if |a| == |b| {
      forall i | 0 <= i < |a|
        ensures LowerChar(a[i]) == LowerChar(b[i]) <==>
                  || a[i] == b[i]
                  || ('a' <= a[i] <= 'z' && b[i] as int == a[i] as int - 32)
                  || ('a' <= b[i] <= 'z' && a[i] as int == b[i] as int - 32)
      {
        SameLetter(a[i], b[i]);
      }
    }
  }

  lemma SameLetter(a: char, b: char)
    ensures LowerChar(a) == LowerChar(b) <==>
              || a == b
              || ('a' <= a <= 'z' && b as int == a as int - 32)
              || ('a' <= b <= 'z' && a as int == b as int - 32)
  {
    LowerCode(a);
    LowerCode(b);
    assert 'A' as int == 65 && 'Z' as int == 90 && 'a' as int == 97 && 'z' as int == 122;
  }

  lemma LowerCode(c: char)
    ensures LowerChar(c) as int == if 65 <= c as int <= 90 then c as int + 32 else c as int
  {
  }

  // ---- the run path's judge --------------------------------------------------------

  datatype Verified = Verified(canonical: string, unpinned: bool)

  function VerifyExe(c: Command, fs: FileSystem): Result<Verified> {
    match Compute(c.exe, fs)
    case Err(e) => Err(e)
    case Ok(found) =>
      if found.canonical !in fs.executable then Err(MalformedPolicy)
      else match c.sha256
        case None => Ok(Verified(found.canonical, true))
        case Some(recorded) =>
          if !EqIgnoreCase(found.sha256, recorded) then Err(ExeHashMismatch)
          else if RequireEnforceable(found.canonical, fs).Err? then Err(MalformedPolicy)
          else Ok(Verified(found.canonical, false))
  }

  // What runs: a regular executable file that can be read, which no recorded pin disagrees with,
  // and which cannot be replaced behind one. The only other error than a malformed policy is a
  // file whose digest is not the recorded one.
  lemma VerifyExactly(c: Command, fs: FileSystem)
    ensures var r := VerifyExe(c, fs);
            && (r.Ok? <==>
                  && |c.exe| > 0 && c.exe[0] == '/' && c.exe in fs.canonical
                  && var path := fs.canonical[c.exe];
                     && path in fs.regular && fs.regular[path] && path in fs.contents && path in fs.executable
                     && (c.sha256.Some? ==>
                           EqIgnoreCase(fs.digest(fs.contents[path]), c.sha256.value) && path !in fs.mutable_))
            && (r.Ok? ==> r.value.canonical == fs.canonical[c.exe] && (r.value.unpinned <==> c.sha256.None?))
            && (r == Err(ExeHashMismatch) <==>
                  && |c.exe| > 0 && c.exe[0] == '/' && c.exe in fs.canonical
                  && var path := fs.canonical[c.exe];
                     && path in fs.regular && fs.regular[path] && path in fs.contents && path in fs.executable
                     && c.sha256.Some? && !EqIgnoreCase(fs.digest(fs.contents[path]), c.sha256.value))
            && (r.Err? ==> r.status == ExeHashMismatch || r.status == MalformedPolicy)
  {
    hide EqIgnoreCase;
    ComputeExactly(c.exe, fs);
  }

  // ---- repin -----------------------------------------------------------------------

  predicate Selected(c: Command, target: Option<string>) {
    target.None? || c.name == target.value
  }

  // One command of a repin: unchanged when not selected, or when current and not named.
  function RepinOne(c: Command, target: Option<string>, fs: FileSystem): Result<Command> {
    if !Selected(c, target) then Ok(c)
    else match Compute(c.exe, fs)
      case Err(e) => Err(e)
      case Ok(found) =>
        if RequireEnforceable(found.canonical, fs).Err? then Err(MalformedPolicy)
        else Ok(c.(sha256 := Some(found.sha256)))
  }

  function RepinAll(commands: seq<Command>, target: Option<string>, fs: FileSystem): Result<seq<Command>> {
    if commands == [] then Ok([])
    else match RepinOne(commands[0], target, fs)
      case Err(e) => Err(e)
      case Ok(c) =>
        match RepinAll(commands[1..], target, fs)
        case Err(e) => Err(e)
        case Ok(rest) => Ok([c] + rest)
  }

  // It succeeds exactly when every executable of a command of the target's name, or of any
  // command without a target, can be pinned. All of these commands then record the digest of
  // what is at their path, and nothing else changes.
  lemma {:induction false} RepinMeaning(commands: seq<Command>, target: Option<string>, fs: FileSystem)
    ensures var r := RepinAll(commands, target, fs);
            if forall c | c in commands && (target.None? || c.name == target.value) :: Pinnable(c.exe, fs)
            then
              && r.Ok? && |r.value| == |commands|
              && forall i | 0 <= i < |commands| ::
                   if target.None? || commands[i].name == target.value
                   then
                     && r.value[i] == commands[i].(sha256 := Some(DigestAt(commands[i].exe, fs)))
                     && Current(r.value[i], fs)
                   else r.value[i] == commands[i]
            else r == Err(MalformedPolicy)
  {
    if commands != [] {
      RepinMeaning(commands[1..], target, fs);
      assert forall c :: c in commands <==> c == commands[0] || c in commands[1..];
    }
  }

  function Prefixed(done: seq<Command>, r: Result<seq<Command>>): Result<seq<Command>> {
    match r
    case Err(e) => Err(e)
    case Ok(rest) => Ok(done + rest)
  }

  lemma RepinStep(done: seq<Command>, commands: seq<Command>, i: nat, c: Command, target: Option<string>,
                  fs: FileSystem)
    requires i < |commands| && RepinOne(commands[i], target, fs) == Ok(c)
    ensures Prefixed(done, RepinAll(commands[i..], target, fs))
            == Prefixed(done + [c], RepinAll(commands[i + 1..], target, fs))
  {
    assert commands[i..][0] == commands[i] && commands[i..][1..] == commands[i + 1..];
    var tail := RepinAll(commands[i + 1..], target, fs);
    if tail.Ok? {
      assert done + ([c] + tail.value) == (done + [c]) + tail.value;
    }
  }

  lemma RepinEnds(done: seq<Command>, all: Result<seq<Command>>, target: Option<string>, fs: FileSystem)
    ensures Prefixed([], all) == all
    ensures Prefixed(done, RepinAll([], target, fs)) == Ok(done)
  {
    assert done + [] == done;
    assert all.Ok? ==> [] + all.value == all.value;
  }

  lemma RepinStops(done: seq<Command>, commands: seq<Command>, i: nat, target: Option<string>, fs: FileSystem)
    requires i < |commands| && RepinOne(commands[i], target, fs).Err?
    ensures Prefixed(done, RepinAll(commands[i..], target, fs)) == Err(RepinOne(commands[i], target, fs).status)
  {
    assert commands[i..][0] == commands[i];
  }

  // The loop: stop at the first failure, count the pins that changed.
  method RepinCommands(commands: seq<Command>, target: Option<string>, fs: FileSystem)
    returns (r: Result<seq<Command>>, repinned: nat)
    ensures r == RepinAll(commands, target, fs)
    ensures r.Ok? ==>
              (repinned == 0 <==>
               r.value == commands && (target.Some? ==> FindCommand(commands, target.value).None?))
  {
    hide FindCommand, RepinAll, Prefixed;
    var current := commands;
    repinned := 0;
    ghost var last := 0;
    ghost var all := RepinAll(commands, target, fs);
    RepinEnds([], all, target, fs);
    assert commands[0..] == commands && commands[..0] == [];
    for i := 0 to |commands|
      invariant |current| == |commands| && current[i..] == commands[i..]
      invariant repinned == 0 ==> current == commands
      invariant repinned > 0 ==>
                  last < i && (if target.None? then current[last] != commands[last]
                               else commands[last].name == target.value)
      invariant repinned == 0 && target.Some? ==> forall k | 0 <= k < i :: commands[k].name != target.value
      invariant all == Prefixed(current[..i], RepinAll(commands[i..], target, fs))
    {
      var c := current[i];
      assert c == current[i..][0] == commands[i..][0] == commands[i];
      assert current[..i + 1] == current[..i] + [c];
      if !Selected(c, target) {
        RepinStep(current[..i], commands, i, c, target, fs);
        continue;
      }
      var found := Compute(c.exe, fs);
      if found.Err? {
        RepinStops(current[..i], commands, i, target, fs);
        return Err(found.status), 0;
      }
      if RequireEnforceable(found.value.canonical, fs).Err? {
        RepinStops(current[..i], commands, i, target, fs);
        return Err(MalformedPolicy), 0;
      }
      var isStale := c.sha256 != Some(found.value.sha256);
      var pinned := c.(sha256 := Some(found.value.sha256));
      RepinStep(current[..i], commands, i, pinned, target, fs);
      if target.None? && !isStale {
        assert pinned == c;
        continue;
      }
      assert current[i := pinned][..i + 1] == current[..i] + [pinned];
      current := current[i := pinned];
      repinned := repinned + 1;
      last := i;
    }
    assert current[..|commands|] == current && commands[|commands|..] == [];
    RepinEnds(current, all, target, fs);
    if target.Some? {
      FindCommandMeaning(commands, target.value);
    }
    r := Ok(current);
  }
}
