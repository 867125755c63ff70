// Saving the vault: write a temporary file, back the old one up, rename.
module VaultSave {
  import opened Results
  import opened Stores

  // The calls of a save: its directory, two writes, a flush, a look, the copy and the rename.
  const COPY_CALL: nat := 5
  const SAVE_CALLS: nat := 7

  // Of the calls of a save that begins at `start`, none but the copy may fail.
  ghost predicate OnlyCopyMayFail(oracle: nat -> Fault, start: nat) {
    forall n | start <= n < start + SAVE_CALLS && n != start + COPY_CALL :: oracle(n).Works?
  }

  // The new vault in the temporary file, or no temporary file where it could be removed.
  method WriteTemp(s: Host, contents: Contents) returns (ok: bool)
    modifies s`files, s`clock, s`failures, s`seen
    ensures ok <==> s.failures == old(s.failures)
    ensures s.failures >= old(s.failures)
    ensures ok ==> s.clock == old(s.clock) + 4 && s.File(SaveTemp) == Some(contents)
    ensures forall p | p != SaveTemp :: s.File(p) == old(s.File(p))
    ensures old(s.seen) <= s.seen <= old(s.seen) + {old(s.Now())}
    ensures (forall n | old(s.clock) <= n < old(s.clock) + 4 :: s.oracle(n).Works?) ==> ok
  {
    // The directory.
    ok := s.Attempt();
    if !ok {
      return;
    }
    ok := s.Write(SaveTemp, Raw(""));
    if !ok {
      return;
    }
    // The database encrypted into the temporary file, then flushed and synced.
    ok := s.Write(SaveTemp, contents);
    if ok {
      ok := s.Attempt();
    }
    if !ok {
      var _ := s.Remove(SaveTemp);
    }
  }

  // `copied` tells whether the unchecked copy of the previous file came through.
  method SaveAtomic(s: Host, master: string, plain: string, seal: nat)
    returns (ok: bool, ghost copied: bool)
    modifies s`files, s`clock, s`failures, s`seen
    ensures ok ==> s.File(Vault) == Some(Sealed(master, plain, seal))
    ensures !ok ==> s.File(Vault) == old(s.File(Vault)) && s.failures > old(s.failures)
    ensures forall p | p != Vault && p != Backup && p != SaveTemp :: s.File(p) == old(s.File(p))
    ensures copied ==> ok && s.File(Backup) == old(s.File(Vault))
    ensures ok && !copied ==> old(s.File(Vault)).None? || s.failures > old(s.failures)
    // The vault is the old one until the last instant.
    ensures old(s.seen) <= s.seen && (ok ==> s.Now() in s.seen)
    ensures forall m | m in s.seen && m !in old(s.seen) ::
              m.item == s.item && (m.vault == old(s.File(Vault)) || (ok && m == s.Now()))
    ensures s.failures >= old(s.failures)
    // A failing copy does not keep the save from succeeding.
    ensures old(s.File(Vault)).Some? && OnlyCopyMayFail(s.oracle, old(s.clock)) ==>
              && ok && s.clock == old(s.clock) + SAVE_CALLS
              && (copied <==> s.oracle(old(s.clock) + COPY_CALL).Works?)
              && (s.oracle(old(s.clock) + COPY_CALL).Lies? ==> s.File(Backup) == old(s.File(Backup)))
  {
    copied := false;
    ok := WriteTemp(s, Sealed(master, plain, seal));
    if !ok {
      return;
    }
    var there := s.Exists(Vault);
    if there {
      copied := s.Copy(Vault, Backup);
    }
    ok := s.Rename(SaveTemp, Vault);
    if !ok {
      copied := false;
      var _ := s.Remove(SaveTemp);
    }
  }

  // Writes `contents` beside `target` and renames it over, or leaves `target` alone.
  method RestoreFileAtomic(s: Host, target: Path, contents: Contents) returns (ok: bool)
    requires target == Vault || target == Backup
    modifies s`files, s`clock, s`failures, s`seen
    ensures ok <==> s.failures == old(s.failures)
    ensures s.failures >= old(s.failures)
    ensures !s.oracle(old(s.clock)).Works? ==> !ok && s.clock == old(s.clock) + 2
    ensures ok ==> s.File(target) == Some(contents)
    ensures !ok ==> s.File(target) == old(s.File(target))
    ensures forall p | p != target && p != RollbackTemp(target) :: s.File(p) == old(s.File(p))
    ensures old(s.seen) <= s.seen <= old(s.seen) + {old(s.Now()), s.Now()} && s.Now() in s.seen
  {
    var temp := RollbackTemp(target);
    ok := s.Write(temp, Raw(""));
    if ok {
      ok := s.Write(temp, contents);
    }
    if ok {
      ok := s.Attempt();
    }
    if ok {
      ok := s.Rename(temp, target);
    }
    if !ok {
      var _ := s.Remove(temp);
    }
  }
}
