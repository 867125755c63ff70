// The stores a transaction spans - files, one Keychain item, standard output - with a fault
// oracle that decides, call by call, what fails and how much of it has happened by then.
module Stores {
  import opened Results

  // File contents: a vault encrypted under a password (`seal` tells two encryptions of the
  // same data apart), or any other bytes.
  datatype Contents = Sealed(password: string, plain: string, seal: nat) | Raw(text: string)

  datatype Path = Vault | Backup | Config | SaveTemp | RollbackTemp(target: Path)

  datatype Credential = Credential(password: string, dbPath: string)

  // `midway`: what a file written by this call holds while the call is at work.
  // `left`: what a failed file write leaves; `took`: a failed or lying Keychain call took effect.
  datatype Fault =
    | Works(midway: Option<Contents>)
    | Fails(left: Option<Contents>, took: bool)
    | Lies

  // What a crash at one instant would leave of the stores that outlive the process.
  datatype Moment = Moment(vault: Option<Contents>, backup: Option<Contents>, item: Option<Credential>)

  // Everything a transaction is judged by.
  datatype View = View(vault: Option<Contents>, backup: Option<Contents>, config: Option<Contents>,
                       item: Option<Credential>, output: seq<string>)

  datatype IoResult<T> = Done(value: T) | NotFound | IoError

  function Opens(file: Option<Contents>, password: string): bool {
    file.Some? && file.value.Sealed? && file.value.password == password
  }

  // Of the lines, one and only one is the password behind four spaces.
  predicate ShownOnce(lines: seq<string>, password: string) {
    exists i | 0 <= i < |lines| ::
      lines[i] == "    " + password && forall j | 0 <= j < |lines| && j != i :: lines[j] != "    " + password
  }

  predicate Indented(line: string) {
    |line| > 0 && line[0] == ' '
  }

  // It is shown once where no other line is indented.
  lemma OnlyIndentedLine(lines: seq<string>, i: nat, password: string)
    requires i < |lines| && lines[i] == "    " + password
    requires forall j | 0 <= j < |lines| && j != i :: !Indented(lines[j])
    ensures ShownOnce(lines, password)
  {
    assert Indented("    " + password);
  }

  // Counts a store that is not as it should be.
  function OneUnless(right: bool): nat {
    if right then 0 else 1
  }

  class Host {
    var files: map<Path, Contents>
    var item: Option<Credential>
    var output: seq<string>
    var clock: nat
    const oracle: nat -> Fault

    // Every instant a crash could have hit since the run began.
    ghost var seen: set<Moment>
    // How many calls have failed since then; a lie counts as one.
    ghost var failures: nat
    // The latest Keychain write reported success exactly when it stored the value.
    ghost var honest: bool

    constructor (oracle: nat -> Fault, files: map<Path, Contents>, item: Option<Credential>)
      ensures this.oracle == oracle && this.files == files && this.item == item
      ensures output == [] && clock == 0 && failures == 0 && honest && seen == {Now()}
    {
      this.oracle, this.files, this.item := oracle, files, item;
      this.output, this.clock, this.failures, this.honest := [], 0, 0, true;
      new;
      seen := {Now()};
    }

    function File(p: Path): Option<Contents>
      reads this`files
    {
      if p in files then Some(files[p]) else None
    }

    function Now(): Moment
      reads this`files, this`item
    {
      Moment(File(Vault), File(Backup), item)
    }

    function Look(): View
      reads this`files, this`item, this`output
    {
      View(File(Vault), File(Backup), File(Config), item, output)
    }

    // What the `n`th call adds to the failures.
    function Failed(n: nat): nat {
      if oracle(n).Works? then 0 else 1
    }

    // A run begins: its instants and failures are counted from here.
    ghost method Begin()
      modifies this`seen, this`failures, this`honest
      ensures seen == {Now()} && failures == 0 && honest
    {
      seen, failures, honest := {Now()}, 0, true;
    }

    method NextFault() returns (f: Fault)
      modifies this`clock, this`failures
      ensures f == oracle(old(clock)) && clock == old(clock) + 1
      ensures failures == old(failures) + Failed(old(clock))
    {
      f := oracle(clock);
      failures := failures + Failed(clock);
      clock := clock + 1;
    }

    // A call that touches nothing modelled here: creating directories, flushing, asking.
    method Attempt() returns (ok: bool)
      modifies this`clock, this`failures
      ensures clock == old(clock) + 1 && failures == old(failures) + Failed(old(clock))
      ensures ok <==> oracle(old(clock)).Works?
    {
      var f := NextFault();
      ok := f.Works?;
    }

    // `Path::exists`, which answers no when it cannot look.
    method Exists(p: Path) returns (there: bool)
      modifies this`clock, this`failures
      ensures clock == old(clock) + 1 && failures == old(failures) + Failed(old(clock))
      ensures there <==> oracle(old(clock)).Works? && File(p).Some?
    {
      var f := NextFault();
      there := f.Works? && p in files;
    }

    method Read(p: Path) returns (r: IoResult<Contents>)
      modifies this`clock, this`failures
      ensures clock == old(clock) + 1 && failures == old(failures) + Failed(old(clock))
      ensures r.IoError? <==> !oracle(old(clock)).Works?
      ensures match r
              case Done(c) => File(p) == Some(c)
              case NotFound => File(p) == None
              case IoError => true
    {
      var f := NextFault();
      if !f.Works? {
        r := IoError;
      } else if p in files {
        r := Done(files[p]);
      } else {
        r := NotFound;
      }
    }

    ghost method Witness()
      modifies this`seen
      ensures seen == old(seen) + {Now()}
    {
      seen := seen + {Now()};
    }

    method Put(p: Path, c: Option<Contents>)
      modifies this`files, this`seen
      ensures File(p) == c
      ensures forall q | q != p :: File(q) == old(File(q))
      ensures seen == old(seen) + {Now()}
    {
      match c {
        case Some(v) => files := files[p := v];
        case None => files := files - {p};
      }
      Witness();
    }

    // Create or truncate a file and write it: not atomic.
    method Write(p: Path, c: Contents) returns (ok: bool)
      modifies this`files, this`clock, this`failures, this`seen
      ensures clock == old(clock) + 1 && failures == old(failures) + Failed(old(clock))
      ensures ok <==> oracle(old(clock)).Works?
      ensures ok ==> File(p) == Some(c)
      ensures oracle(old(clock)).Lies? ==> File(p) == old(File(p))
      ensures forall q | q != p :: File(q) == old(File(q))
      ensures old(seen) <= seen
      ensures p != Vault && p != Backup ==> seen <= old(seen) + {old(Now())}
      ensures forall m | m in seen && m !in old(seen) ::
                m.item == old(item) && (p != Vault ==> m.vault == old(File(Vault)))
      ensures Now() in seen
    {
      var f := NextFault();
      match f {
        case Works(midway) =>
          Put(p, midway);
          Put(p, Some(c));
          ok := true;
        case Fails(left, took) =>
          Put(p, left);
          ok := false;
        case Lies =>
          Witness();
          ok := false;
      }
    }

    // Copying is a write whose success nobody checks here.
    method Copy(from: Path, to: Path) returns (ok: bool)
      requires from != to
      modifies this`files, this`clock, this`failures, this`seen
      ensures clock == old(clock) + 1 && failures == old(failures) + Failed(old(clock))
      ensures ok <==> oracle(old(clock)).Works? && old(File(from)).Some?
      ensures ok ==> File(to) == old(File(from))
      ensures oracle(old(clock)).Lies? ==> File(to) == old(File(to))
      ensures old(seen) <= seen
      ensures forall q | q != to :: File(q) == old(File(q))
      ensures forall m | m in seen && m !in old(seen) ::
                m.item == old(item) && (to != Vault ==> m.vault == old(File(Vault)))
      ensures Now() in seen
    {
      if from in files {
        ok := Write(to, files[from]);
      } else {
        var _ := NextFault();
        Witness();
        ok := false;
      }
    }

    // Renaming replaces the target in one step or not at all.
    method Rename(from: Path, to: Path) returns (ok: bool)
      requires from != to
      modifies this`files, this`clock, this`failures, this`seen
      ensures clock == old(clock) + 1 && failures == old(failures) + Failed(old(clock))
      ensures ok <==> oracle(old(clock)).Works? && old(File(from)).Some?
      ensures ok ==> File(to) == old(File(from)) && File(from) == None
      ensures !ok ==> File(to) == old(File(to)) && File(from) == old(File(from))
      ensures forall q | q != from && q != to :: File(q) == old(File(q))
      ensures seen == old(seen) + {Now()}
    {
      var f := NextFault();
      ok := f.Works? && from in files;
      if ok {
        files := (files - {from})[to := files[from]];
      }
      Witness();
    }

    method Remove(p: Path) returns (r: IoResult<()>)
      modifies this`files, this`clock, this`failures, this`seen
      ensures clock == old(clock) + 1 && failures == old(failures) + Failed(old(clock))
      ensures r.IoError? <==> !oracle(old(clock)).Works?
      ensures match r
              case Done(_) => File(p) == None
              case NotFound => File(p) == None == old(File(p))
              case IoError => File(p) == old(File(p))
      ensures forall q | q != p :: File(q) == old(File(q))
      ensures seen == old(seen) + {Now()}
    {
      var f := NextFault();
      if !f.Works? {
        r := IoError;
      } else if p in files {
        files := files - {p};
        r := Done(());
      } else {
        r := NotFound;
      }
      Witness();
    }

    method GetItem() returns (r: IoResult<Credential>)
      modifies this`clock, this`failures
      ensures clock == old(clock) + 1 && failures == old(failures) + Failed(old(clock))
      ensures r.IoError? <==> !oracle(old(clock)).Works?
      ensures match r
              case Done(c) => item == Some(c)
              case NotFound => item == None
              case IoError => true
    {
      var f := NextFault();
      if !f.Works? {
        r := IoError;
      } else if item.Some? {
        r := Done(item.value);
      } else {
        r := NotFound;
      }
    }

    // Storing or deleting the item. An error may come after the change took effect, and
    // an oracle may lie: report success for a change that did not happen.
    method SetItem(c: Option<Credential>) returns (ok: bool)
      modifies this`item, this`clock, this`failures, this`seen, this`honest
      ensures clock == old(clock) + 1 && failures == old(failures) + Failed(old(clock))
      ensures ok && honest <==> oracle(old(clock)).Works?
      ensures oracle(old(clock)).Fails? ==> !ok && item == if oracle(old(clock)).took then c else old(item)
      ensures ok && honest ==> item == c
      ensures item == c || item == old(item)
      ensures seen == old(seen) + {Now()}
    {
      var f := NextFault();
      match f {
        case Works(_) => item, ok, honest := c, true, true;
        case Fails(_, took) => item, ok, honest := (if took then c else item), false, true;
        case Lies => ok, honest := true, false;
      }
      Witness();
    }

    // Printing `lines`; a failure may come after some of them.
    method Print(lines: seq<string>) returns (ok: bool)
      modifies this`output, this`clock, this`failures
      ensures failures == old(failures) + if ok then 0 else 1
      ensures ok ==> output == old(output) + lines
      ensures old(output) <= output <= old(output) + lines
    {
      var start := output;
      for i := 0 to |lines|
        invariant output == start + lines[..i] && failures == old(failures)
      {
        var f := NextFault();
        if !f.Works? {
          return false;
        }
        assert lines[..i + 1] == lines[..i] + [lines[i]];
        output := output + [lines[i]];
      }
      assert lines[..|lines|] == lines;
      ok := true;
    }

    // `println!`, which does not report failures.
    method PrintLines(lines: seq<string>)
      modifies this`output
      ensures output == old(output) + lines
    {
      output := output + lines;
    }
  }
}
