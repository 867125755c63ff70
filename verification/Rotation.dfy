// Replacing the vault password across the vault file, its backup and the Keychain item.
module Rotation {
  import opened Results
  import opened Stores
  import opened VaultSave

  datatype Outcome =
    | Rotated
    | Refused              // an error before anything was written
    | RolledBack           // an error, and everything put back
    | CommittedNotShown    // rotated, but the new key could not be printed in full
    | RecoveryRequired     // an error whose rollback failed as well

  datatype BackupSnapshot = BackupSnapshot(contents: Option<Contents>)

  // What happened underneath: whether the save succeeded, whether its copy to the backup came
  // through, the backup right after it, and whether no attempt to put the saved vault back failed.
  datatype Trace = Trace(saved: bool, copied: bool, backupAtSave: Option<Contents>, vaultBack: bool)

  const STORE_HINT := "Store this" + " outside the agent's reach (personal password manager or paper)."
  const REPOSITORY_HINT := "Do NOT save" + " it in a repository or a file under your home directory."

  function RecoveryKey(path: string, password: string): seq<string> {
    ["Vault password (rotated) for " + path + ":", "", "    " + password, "", STORE_HINT, REPOSITORY_HINT]
  }

  lemma HintsAreNotIndented()
    ensures !Indented(STORE_HINT) && !Indented(REPOSITORY_HINT)
  {
  }

  lemma RecoveryKeyShows(path: string, password: string)
    ensures ShownOnce(RecoveryKey(path, password), password)
  {
    hide STORE_HINT, REPOSITORY_HINT, ShownOnce;
    HintsAreNotIndented();
    var lines := RecoveryKey(path, password);
    assert lines[0][0] == 'V';
    OnlyIndentedLine(lines, 2, password);
  }

  // What is printed tells the password.
  lemma RecoveryKeyTells(path: string, a: string, b: string)
    ensures RecoveryKey(path, a) == RecoveryKey(path, b) ==> a == b
  {
    hide STORE_HINT, REPOSITORY_HINT;
    var la, lb := RecoveryKey(path, a), RecoveryKey(path, b);
    assert la[2] == "    " + a && lb[2] == "    " + b;
    assert ("    " + a)[4..] == a && ("    " + b)[4..] == b;
  }

  // Everything on the new password: one new ciphertext of the same data in the vault and its
  // backup, and the Keychain item to open them.
  predicate Committed(vault: Option<Contents>, backup: Option<Contents>, item: Option<Credential>,
                      old_: Contents, oldItem: Credential, password: string) {
    && vault.Some? && vault.value.Sealed? && backup == vault
    && vault.value.password == password != oldItem.password
    && old_.Sealed? && old_.password == oldItem.password && old_.plain == vault.value.plain
    && item == Some(Credential(password, oldItem.dbPath))
  }

  // The owner can open something: with the old recovery key they hold, or with the item.
  predicate Recoverable(m: Moment, oldPassword: string) {
    || Opens(m.vault, oldPassword)
    || Opens(m.backup, oldPassword)
    || (m.item.Some? && Opens(m.vault, m.item.value.password))
  }

  // How many of the three stores are not as they were.
  function Unrestored(m: Moment, original: Option<Contents>, backup: Option<Contents>, item: Option<Credential>): nat {
    OneUnless(m.vault == original) + OneUnless(m.backup == backup) + OneUnless(m.item == item)
  }

  // ---- putting things back -----------------------------------------------------------------

  // From call `n` on: the vault cannot be put back, and then a new backup is removed.
  ghost predicate OnlyVaultRestoreFails(oracle: nat -> Fault, n: nat) {
    !oracle(n).Works? && oracle(n + 2).Works?
  }

  // The item is not replaced, is set back, and the vault cannot be put back.
  ghost predicate UndoFails(oracle: nat -> Fault, n: nat) {
    oracle(n).Fails? && !oracle(n).took && oracle(n + 1).Works? && OnlyVaultRestoreFails(oracle, n + 2)
  }

  method BackupRestore(s: Host, snapshot: BackupSnapshot) returns (ok: bool)
    modifies s`files, s`clock, s`failures, s`seen
    ensures ok <==> s.failures == old(s.failures)
    ensures s.failures >= old(s.failures)
    ensures ok ==> s.File(Backup) == snapshot.contents
    ensures !ok ==> s.File(Backup) == old(s.File(Backup))
    ensures snapshot.contents.None? ==> (ok <==> s.oracle(old(s.clock)).Works?)
    ensures forall p | p != Backup && p != RollbackTemp(Backup) :: s.File(p) == old(s.File(p))
    ensures old(s.seen) <= s.seen <= old(s.seen) + {old(s.Now()), s.Now()} && s.Now() in s.seen
  {
    match snapshot.contents {
      case Some(contents) =>
        ok := RestoreFileAtomic(s, Backup, contents);
      case None =>
        var r := s.Remove(Backup);
        ok := !r.IoError?;
    }
  }

  // Every failing call costs at most one of the two files.
  method RestoreFiles(s: Host, original: Contents, snapshot: BackupSnapshot)
    returns (ok: bool, ghost vaultBack: bool)
    modifies s`files, s`clock, s`failures, s`seen
    ensures ok <==> s.failures == old(s.failures)
    ensures Unrestored(s.Now(), Some(original), snapshot.contents, s.item) <= s.failures - old(s.failures)
    ensures s.File(Config) == old(s.File(Config))
    ensures s.File(Vault) == if vaultBack then Some(original) else old(s.File(Vault))
    ensures ok ==> vaultBack
    ensures OnlyVaultRestoreFails(s.oracle, old(s.clock)) && snapshot.contents.None? ==>
              !vaultBack && s.File(Backup) == None
    ensures old(s.seen) <= s.seen && s.Now() in s.seen
    ensures forall m | m in s.seen && m !in old(s.seen) ::
              && m.item == s.item
              && (m == old(s.Now()) || m.vault == Some(original)
                  || (!vaultBack && m.vault == old(s.File(Vault))
                      && (m.backup == old(s.File(Backup)) || m == s.Now())))
  {
    var vaultOk := RestoreFileAtomic(s, Vault, original);
    vaultBack := vaultOk;
    var backupOk := BackupRestore(s, snapshot);
    ok := vaultOk && backupOk;
  }

  // Every failing or lying call costs at most one of the three stores.
  method RollbackRotation(s: Host, original: Contents, snapshot: BackupSnapshot, oldItem: Credential)
    returns (ok: bool, ghost vaultBack: bool)
    modifies s`files, s`item, s`clock, s`failures, s`seen, s`honest
    ensures s.failures == old(s.failures) ==> ok
    ensures !ok ==> s.failures > old(s.failures)
    ensures Unrestored(s.Now(), Some(original), snapshot.contents, Some(oldItem)) <= s.failures - old(s.failures)
    ensures s.File(Config) == old(s.File(Config))
    ensures ok ==> s.File(Vault) == Some(original) && s.File(Backup) == snapshot.contents
    ensures ok && s.honest ==> s.item == Some(oldItem)
    ensures ok ==> vaultBack
    ensures s.item == Some(oldItem) || s.item == old(s.item)
    ensures s.File(Vault) == if vaultBack then Some(original) else old(s.File(Vault))
    ensures s.oracle(old(s.clock)).Works? && OnlyVaultRestoreFails(s.oracle, old(s.clock) + 1)
            && snapshot.contents.None? ==>
              !vaultBack && s.item == Some(oldItem) && s.File(Backup) == None
    ensures old(s.seen) <= s.seen && s.Now() in s.seen
    ensures forall m | m in s.seen && m !in old(s.seen) ::
              && (m.item == Some(oldItem) || m.item == old(s.item))
              && (m.vault == Some(original)
                  || (m.vault == old(s.File(Vault))
                      && (m.backup == old(s.File(Backup)) || (!vaultBack && m == s.Now()))))
  {
    var itemOk := s.SetItem(Some(oldItem));
    var filesOk;
    filesOk, vaultBack := RestoreFiles(s, original, snapshot);
    ok := itemOk && filesOk;
  }

  // Reading the item back catches a store that took the write and did not keep it.
  method SetAndVerify(s: Host, expected: Credential) returns (ok: bool)
    modifies s`item, s`clock, s`failures, s`seen, s`honest
    ensures s.failures >= old(s.failures) + OneUnless(ok)
    ensures s.failures == old(s.failures) ==> s.honest
    ensures s.oracle(old(s.clock)).Fails? ==> !ok && s.clock == old(s.clock) + 1
    ensures ok ==> s.item == Some(expected)
    ensures s.item == Some(expected) || s.item == old(s.item)
    ensures s.seen == old(s.seen) + {s.Now()}
  {
    ok := s.SetItem(Some(expected));
    if ok {
      var stored := s.GetItem();
      ok := stored.Done? && stored.value.dbPath == expected.dbPath && stored.value.password == expected.password;
    }
  }

  // ---- before anything is written --------------------------------------------------------------

  const PREPARE_CALLS: nat := 5

  // The vault can be opened for this request, and the generator did its job.
  predicate Rotatable(s: Host, requested: string, hint: Option<string>, generated: string)
    reads s
  {
    && s.item.Some? && s.item.value.password != generated
    && requested == s.item.value.dbPath && (hint.Some? ==> hint.value == s.item.value.dbPath)
    && Opens(s.File(Vault), s.item.value.password)
  }

  // Every error before the first write.
  method Prepare(s: Host, requested: string, hint: Option<string>, generated: string)
    returns (r: Option<(Credential, Contents, BackupSnapshot)>)
    modifies s`clock, s`failures
    ensures s.failures >= old(s.failures)
    ensures r.Some? ==> s.failures == old(s.failures) && s.clock == old(s.clock) + PREPARE_CALLS
    ensures r.Some? ==> Rotatable(s, requested, hint, generated)
    ensures Rotatable(s, requested, hint, generated)
            && (|| s.failures == old(s.failures)
                || forall n | old(s.clock) <= n < old(s.clock) + PREPARE_CALLS :: s.oracle(n).Works?)
            ==> r.Some?
    ensures r.Some? ==>
              var (oldItem, original, snapshot) := r.value;
              s.item == Some(oldItem) && s.File(Vault) == Some(original) && s.File(Backup) == snapshot.contents
  {
    r := None;
    var locked := s.Attempt();
    if !locked {
      return;
    }
    var item := s.GetItem();
    if !item.Done? || requested != item.value.dbPath || (hint.Some? && hint.value != item.value.dbPath) {
      return;
    }
    var unlocked := s.Read(Vault);
    if !unlocked.Done? || !Opens(Some(unlocked.value), item.value.password) {
      return;
    }
    var original := s.Read(Vault);
    if !original.Done? {
      return;
    }
    var backup := s.Read(Backup);
    if backup.IoError? || generated == item.value.password {
      return;
    }
    var snapshot := BackupSnapshot(match backup case Done(c) => Some(c) case _ => None);
    r := Some((item.value, original.value, snapshot));
  }

  // ---- the transaction ------------------------------------------------------------------------------

  // The vault is one of two complete files, and the item one of two values.
  predicate OldOrNew(m: Moment, oldVault: Option<Contents>, newVault: Option<Contents>,
                     oldItem: Option<Credential>, newItem: Option<Credential>) {
    (m.vault == oldVault || m.vault == newVault) && (m.item == oldItem || m.item == newItem)
  }

  ghost predicate AllRecoverable(before: set<Moment>, seen: set<Moment>, oldPassword: string) {
    forall m | m in seen && m !in before :: Recoverable(m, oldPassword)
  }

  // From the saved vault on: the Keychain item, then the backup, undoing both on failure.
  method Finish(s: Host, original: Contents, snapshot: BackupSnapshot, oldItem: Credential,
                newItem: Credential, ghost saved: Contents)
    returns (outcome: Outcome, ghost vaultBack: bool)
    requires s.File(Vault) == Some(saved) && Opens(Some(saved), newItem.password)
    requires s.item == Some(oldItem)
    modifies s`files, s`item, s`clock, s`failures, s`seen, s`honest
    ensures s.File(Config) == old(s.File(Config))
    ensures s.failures >= old(s.failures)
    ensures s.failures == old(s.failures) ==> outcome.Rotated?
    ensures outcome.Rotated? || outcome.RolledBack? || outcome.RecoveryRequired?
    ensures outcome.Rotated? ==>
              s.File(Vault) == Some(saved) == s.File(Backup) && s.item == Some(newItem)
    ensures outcome.RolledBack? ==>
              && s.File(Vault) == Some(original) && s.File(Backup) == snapshot.contents
              && (s.honest ==> s.item == Some(oldItem))
    ensures outcome.RecoveryRequired? ==> s.failures >= old(s.failures) + 2
    ensures !outcome.Rotated? ==>
              Unrestored(s.Now(), Some(original), snapshot.contents, Some(oldItem)) < s.failures - old(s.failures)
    ensures !vaultBack ==> outcome.RecoveryRequired? && s.File(Vault) == Some(saved)
    ensures old(s.seen) <= s.seen && s.Now() in s.seen
    ensures forall m | m in s.seen && m !in old(s.seen) ::
              OldOrNew(m, Some(original), Some(saved), Some(oldItem), Some(newItem))
    ensures Opens(Some(original), oldItem.password) && Opens(old(s.File(Backup)), oldItem.password)
            && (vaultBack || s.item != Some(oldItem) || Opens(s.File(Backup), oldItem.password))
            ==> AllRecoverable(old(s.seen), s.seen, oldItem.password)
    ensures UndoFails(s.oracle, old(s.clock)) && snapshot.contents.None? ==>
              !vaultBack && s.item == Some(oldItem) && s.File(Backup) == None
  {
    vaultBack := true;
    var done := SetAndVerify(s, newItem);
    if done {
      var reread := s.Read(Vault);
      done := reread.Done?;
      if done {
        done := RestoreFileAtomic(s, Backup, reread.value);
      }
    }
    if done {
      outcome := Rotated;
    } else {
      var undone;
      undone, vaultBack := RollbackRotation(s, original, snapshot, oldItem);
      outcome := if undone then RolledBack else RecoveryRequired;
    }
  }

  // The trace is what the instants show: a saved vault was there with the old item, and a
  // backup that the copy, if it came through, had made the old vault.
  ghost predicate Happened(t: Trace, before: set<Moment>, seen: set<Moment>, original: Contents, saved: Contents,
                           oldItem: Credential) {
    && (t.saved ==> Moment(Some(saved), t.backupAtSave, Some(oldItem)) in seen)
    && (!t.saved ==> forall m | m in seen && m !in before :: m.vault == Some(original))
    && (t.copied ==> t.saved && t.backupAtSave == Some(original))
  }

  // All instants are recoverable exactly when the one after the save and the last one are.
  lemma RecoverableExactly(t: Trace, start: Moment, seen: set<Moment>, last: Moment, original: Contents,
                           saved: Contents, oldItem: Credential)
    requires Happened(t, {start}, seen, original, saved, oldItem) && last in seen
    requires start.vault == Some(original) && Opens(Some(original), oldItem.password)
    requires !Opens(Some(saved), oldItem.password) && (!t.vaultBack ==> last.vault == Some(saved))
    requires RecoverableIf(t, last, oldItem) ==> AllRecoverable({start}, seen, oldItem.password)
    ensures (forall m | m in seen :: Recoverable(m, oldItem.password)) <==> RecoverableIf(t, last, oldItem)
  {
  }

  // The backup could be opened when the vault was saved; and at the end the vault was put back,
  // or the item still opens it, or the backup can be opened.
  predicate RecoverableIf(t: Trace, last: Moment, oldItem: Credential) {
    && (t.saved ==> Opens(t.backupAtSave, oldItem.password))
    && (t.vaultBack || last.item != Some(oldItem) || Opens(last.backup, oldItem.password))
  }

  method ReplacePassword(s: Host, original: Contents, snapshot: BackupSnapshot, oldItem: Credential,
                         generated: string, seal: nat)
    returns (outcome: Outcome, ghost t: Trace)
    requires s.item == Some(oldItem) && s.File(Vault) == Some(original)
    requires original.Sealed? && original.password == oldItem.password && s.File(Backup) == snapshot.contents
    modifies s`files, s`item, s`clock, s`failures, s`seen, s`honest
    ensures s.File(Config) == old(s.File(Config))
    ensures s.failures >= old(s.failures)
    ensures s.failures == old(s.failures) ==> outcome.Rotated? && t.saved && t.copied
    ensures outcome.Rotated? || outcome.RolledBack? || outcome.RecoveryRequired?
    ensures outcome.Rotated? ==>
              && s.File(Vault) == Some(Sealed(generated, original.plain, seal)) == s.File(Backup)
              && s.item == Some(Credential(generated, oldItem.dbPath))
    ensures outcome.RolledBack? ==>
              && s.File(Vault) == Some(original) && s.File(Backup) == snapshot.contents
              && (s.honest || !t.saved ==> s.item == Some(oldItem))
    ensures outcome.RecoveryRequired? ==> s.failures >= old(s.failures) + 2
    ensures !outcome.Rotated? ==>
              Unrestored(s.Now(), Some(original), snapshot.contents, Some(oldItem)) < s.failures - old(s.failures)
    ensures old(s.seen) <= s.seen && s.Now() in s.seen
    ensures forall m | m in s.seen && m !in old(s.seen) ::
              OldOrNew(m, Some(original), Some(Sealed(generated, original.plain, seal)),
                       Some(oldItem), Some(Credential(generated, oldItem.dbPath)))
    ensures Happened(t, old(s.seen), s.seen, original, Sealed(generated, original.plain, seal), oldItem)
    ensures t.saved && !t.copied ==> s.failures > old(s.failures)
    ensures !t.vaultBack ==>
              outcome.RecoveryRequired? && s.File(Vault) == Some(Sealed(generated, original.plain, seal))
    ensures RecoverableIf(t, s.Now(), oldItem) ==> AllRecoverable(old(s.seen), s.seen, oldItem.password)
    ensures OnlyCopyMayFail(s.oracle, old(s.clock)) ==>
              && t.saved && (t.copied <==> s.oracle(old(s.clock) + COPY_CALL).Works?)
              && (s.oracle(old(s.clock) + COPY_CALL).Lies? ==> t.backupAtSave == old(s.File(Backup)))
              && (UndoFails(s.oracle, old(s.clock) + SAVE_CALLS) && snapshot.contents.None? ==>
                    !t.vaultBack && s.item == Some(oldItem) && s.File(Backup) == None)
  {
    var saved, copied := SaveAtomic(s, generated, original.plain, seal);
    t := Trace(saved, copied, s.File(Backup), true);
    if saved {
      ghost var vaultBack;
      outcome, vaultBack := Finish(s, original, snapshot, oldItem, Credential(generated, oldItem.dbPath),
                                   Sealed(generated, original.plain, seal));
      t := t.(vaultBack := vaultBack);
    } else {
      var restored, _ := RestoreFiles(s, original, snapshot);
      outcome := if restored then RolledBack else RecoveryRequired;
    }
  }

  predicate RotatedTo(before: View, after: View, password: string) {
    && before.vault.Some? && before.item.Some? && after.config == before.config
    && !Opens(after.vault, before.item.value.password) && !Opens(after.backup, before.item.value.password)
    && Committed(after.vault, after.backup, after.item, before.vault.value, before.item.value, password)
  }

  lemma AllThreeReplaced(before: View, after: View, original: Contents, oldItem: Credential,
                         password: string, seal: nat)
    requires before.vault == Some(original) && before.item == Some(oldItem) && after.config == before.config
    requires Opens(Some(original), oldItem.password) && password != oldItem.password
    requires after.vault == Some(Sealed(password, original.plain, seal)) == after.backup
    requires after.item == Some(Credential(password, oldItem.dbPath))
    ensures RotatedTo(before, after, password)
  {
  }

  // All or nothing, or an error that says so. Every failing call after the one that stopped the
  // rotation costs at most one store.
  predicate Settled(outcome: Outcome, before: View, after: View, password: string, honest: bool, failures: nat) {
    match outcome
    case Refused => after == before.(output := after.output)
    case RolledBack =>
      && after == before.(item := after.item, output := after.output)
      && (honest ==> after.item == before.item) && OneUnless(after.item == before.item) < failures
    case Rotated => RotatedTo(before, after, password)
    case CommittedNotShown => failures >= 1 && RotatedTo(before, after, password)
    case RecoveryRequired =>
      && failures >= 2 && after.config == before.config
      && OneUnless(after.vault == before.vault) + OneUnless(after.backup == before.backup)
         + OneUnless(after.item == before.item) < failures
  }

  // What the instants of a run that was not refused show. The vault is one complete file, old
  // or new, and so is the item; and the exact condition for the owner to have something that
  // opens at every instant.
  ghost predicate Traced(outcome: Outcome, t: Trace, before: View, seen: set<Moment>, last: Moment, start: Moment,
                         password: string, seal: nat, failures: nat) {
    outcome.Refused? ||
    (&& before.vault.Some? && before.vault.value.Sealed? && before.item.Some?
     && var saved, oldItem := Sealed(password, before.vault.value.plain, seal), before.item.value;
        && (forall m | m in seen ::
              OldOrNew(m, before.vault, Some(saved), before.item, Some(Credential(password, oldItem.dbPath))))
        && ((forall m | m in seen :: Recoverable(m, oldItem.password)) <==> RecoverableIf(t, last, oldItem))
        && Happened(t, {start}, seen, before.vault.value, saved, oldItem)
        && (t.saved && !t.copied ==> failures >= 1)
        && (!t.vaultBack ==> outcome.RecoveryRequired? && !Opens(last.vault, oldItem.password)))
  }

  lemma InstantsTell(outcome: Outcome, t: Trace, before: View, seen: set<Moment>, last: Moment, start: Moment,
                     original: Contents, oldItem: Credential, password: string, seal: nat, failures: nat)
    requires before.vault == Some(original) == start.vault && before.item == Some(oldItem) == start.item
    requires Opens(Some(original), oldItem.password) && password != oldItem.password && last in seen
    requires var saved := Sealed(password, original.plain, seal);
             && (forall m | m in seen && m != start ::
                   OldOrNew(m, Some(original), Some(saved), Some(oldItem), Some(Credential(password, oldItem.dbPath))))
             && Happened(t, {start}, seen, original, saved, oldItem)
             && (!t.vaultBack ==> outcome.RecoveryRequired? && last.vault == Some(saved))
    requires t.saved && !t.copied ==> failures >= 1
    requires RecoverableIf(t, last, oldItem) ==> AllRecoverable({start}, seen, oldItem.password)
    ensures Traced(outcome, t, before, seen, last, start, password, seal, failures)
  {
    hide Happened, RecoverableIf, AllRecoverable, Recoverable;
    RecoverableExactly(t, start, seen, last, original, Sealed(password, original.plain, seal), oldItem);
  }

  // The calls of the run alone decide: only the copy failing does not stop the save; and where
  // nothing but the item write and the restore of the vault fails after it, the vault stays the
  // new one under the old item.
  ghost predicate Decided(outcome: Outcome, t: Trace, before: View, last: Moment, oracle: nat -> Fault, start: nat) {
    (forall n | start <= n < start + PREPARE_CALLS :: oracle(n).Works?)
    && OnlyCopyMayFail(oracle, start + PREPARE_CALLS)
    ==>
      && !outcome.Refused? && t.saved
      && (t.copied <==> oracle(start + PREPARE_CALLS + COPY_CALL).Works?)
      && (oracle(start + PREPARE_CALLS + COPY_CALL).Lies? ==> t.backupAtSave == before.backup)
      && (UndoFails(oracle, start + PREPARE_CALLS + SAVE_CALLS) && before.backup.None? ==>
            !t.vaultBack && last.item == before.item && last.backup == None)
  }

  // Everything but showing the key.
  method Transact(s: Host, requested: string, hint: Option<string>, generated: string, seal: nat)
    returns (outcome: Outcome, ghost t: Trace)
    modifies s`files, s`item, s`clock, s`failures, s`seen, s`honest
    ensures !outcome.CommittedNotShown?
    ensures outcome.Refused? ==> s.seen == {s.Now()}
    ensures !outcome.Refused? ==> old(Rotatable(s, requested, hint, generated))
    ensures s.failures == 0 && old(Rotatable(s, requested, hint, generated)) ==> outcome.Rotated?
    ensures Settled(outcome, old(s.Look()), s.Look(), generated, s.honest, s.failures)
    ensures Traced(outcome, t, old(s.Look()), s.seen, s.Now(), old(s.Now()), generated, seal, s.failures)
    ensures old(Rotatable(s, requested, hint, generated)) ==>
              Decided(outcome, t, old(s.Look()), s.Now(), s.oracle, old(s.clock))
  {
    hide Recoverable, RecoverableIf, AllRecoverable, Happened, OnlyCopyMayFail, UndoFails, RotatedTo;
    s.Begin();
    t := Trace(false, false, None, true);
    var prepared := Prepare(s, requested, hint, generated);
    if prepared.None? {
      return Refused, t;
    }
    var (oldItem, original, snapshot) := prepared.value;
    hide Traced, OldOrNew;
    ghost var start := s.Now();
    outcome, t := ReplacePassword(s, original, snapshot, oldItem, generated, seal);
    InstantsTell(outcome, t, old(s.Look()), s.seen, s.Now(), start, original, oldItem, generated, seal, s.failures);
    if outcome.Rotated? {
      AllThreeReplaced(old(s.Look()), s.Look(), original, oldItem, generated, seal);
    }
  }

  // The key is printed line by line and flushed; a failure may come after some of them or all.
  method ShowKey(s: Host, path: string, password: string) returns (shown: bool)
    modifies s`output, s`clock, s`failures
    ensures s.failures == old(s.failures) + OneUnless(shown)
    ensures shown ==> s.output == old(s.output) + RecoveryKey(path, password)
    ensures shown ==> ShownOnce(s.output[|old(s.output)|..], password)
    ensures old(s.output) <= s.output <= old(s.output) + RecoveryKey(path, password)
  {
    hide RecoveryKey, ShownOnce;
    shown := s.Print(RecoveryKey(path, password));
    if shown {
      shown := s.Attempt();
    }
    RecoveryKeyShows(path, password);
    assert shown ==> s.output[|old(s.output)|..] == RecoveryKey(path, password);
  }

  method RotatePassword(s: Host, requested: string, hint: Option<string>, generated: string, seal: nat)
    returns (outcome: Outcome, ghost t: Trace)
    modifies s
    // When nothing fails, the password is rotated exactly when the request allows it.
    ensures !outcome.Refused? ==> old(Rotatable(s, requested, hint, generated))
    ensures s.failures == 0 && old(Rotatable(s, requested, hint, generated)) ==> outcome.Rotated?
    ensures outcome.Refused? ==> s.seen == {s.Now()}
    ensures Settled(outcome, old(s.Look()), s.Look(), generated, s.honest, s.failures)
    ensures Traced(outcome, t, old(s.Look()), s.seen, s.Now(), old(s.Now()), generated, seal, s.failures)
    ensures old(Rotatable(s, requested, hint, generated)) ==>
              Decided(outcome, t, old(s.Look()), s.Now(), s.oracle, old(s.clock))
    // The new password is shown once when all is done, perhaps not to the end when printing
    // failed, and otherwise nothing is printed.
    ensures old(s.output) <= s.output
    ensures outcome.Rotated? ==> s.output == old(s.output) + RecoveryKey(requested, generated)
    ensures outcome.Rotated? ==> ShownOnce(s.output[|old(s.output)|..], generated)
    ensures outcome.CommittedNotShown? ==> s.output <= old(s.output) + RecoveryKey(requested, generated)
    ensures !outcome.Rotated? && !outcome.CommittedNotShown? ==> s.output == old(s.output)
  {
    hide RecoveryKey, ShownOnce, Recoverable, RecoverableIf, Happened, OldOrNew, Committed, Rotatable;
    hide OnlyCopyMayFail, UndoFails;
    outcome, t := Transact(s, requested, hint, generated, seal);
    if outcome.Rotated? {
      var shown := ShowKey(s, requested, generated);
      outcome := if shown then Rotated else CommittedNotShown;
    }
  }

  // The exception is real: a copy that silently does nothing, where there was no backup before,
  // leaves an instant at which nothing opens.
  method CopyFailureIsReal(oldItem: Credential, password: string, plain: string)
    returns (s: Host, outcome: Outcome, ghost m: Moment)
    requires password != oldItem.password
    ensures !outcome.Refused? && m in s.seen && !Recoverable(m, oldItem.password)
  {
    hide Settled, OldOrNew, RecoverableIf;
    var oracle := n => if n == PREPARE_CALLS + COPY_CALL then Lies else Works(None);
    s := new Host(oracle, map[Vault := Sealed(oldItem.password, plain, 0)], Some(oldItem));
    assert s.File(Vault) == Some(Sealed(oldItem.password, plain, 0)) && s.File(Backup) == None;
    ghost var t;
    outcome, t := RotatePassword(s, oldItem.dbPath, None, password, 1);
    m := Moment(Some(Sealed(password, plain, 1)), None, Some(oldItem));
  }

  // So is the other one: where the item write fails, and then putting the vault back, a run ends
  // with nothing that opens, because the backup that would have is put back to none.
  method VaultRestoreFailureIsReal(oldItem: Credential, password: string, plain: string)
    returns (s: Host, outcome: Outcome)
    requires password != oldItem.password
    ensures outcome.RecoveryRequired? && !Recoverable(s.Now(), oldItem.password)
  {
    hide Settled, OldOrNew, RecoverableIf, Happened;
    var first := PREPARE_CALLS + SAVE_CALLS;
    var oracle := n => if n == first || n == first + 2 then Fails(None, false) else Works(None);
    s := new Host(oracle, map[Vault := Sealed(oldItem.password, plain, 0)], Some(oldItem));
    assert s.File(Vault) == Some(Sealed(oldItem.password, plain, 0)) && s.File(Backup) == None;
    assert UndoFails(oracle, first);
    ghost var t;
    outcome, t := RotatePassword(s, oldItem.dbPath, None, password, 1);
  }
}
