/** Rotation of a credential vault by hard links. Every file operation takes effect or fails unchanged, and
    the process may die before or after any of them, recovery included. */
module CredentialVault {
  type Envelope = string

  /** The vault, its rollback link, and the temporary files of publications. */
  datatype Name = Vault | Rollback | Temp(id: nat)

  type Files = map<Name, Envelope>

  datatype Fault = Sound | Fails | DiesBefore | DiesAfter

  datatype Outcome = Ok | Failed | Dead

  predicate Effective(f: Fault) { f.Sound? || f.DiesAfter? }

  function OutcomeOf(f: Fault): Outcome {
    match f case Sound => Ok case Fails => Failed case DiesBefore => Dead case DiesAfter => Dead
  }

  /** What a completed recovery leaves: no rollback, and the vault, or failing that the rollback, as vault. */
  function Recovered(files: Files): Files {
    if Vault in files then files - {Rollback}
    else if Rollback in files then files[Vault := files[Rollback]] - {Rollback}
    else files
  }

  datatype Option<T> = None | Some(value: T)

  /** The envelope that the files stand for: the one any later recovery leaves in the vault. */
  function Meaning(files: Files): Option<Envelope> {
    if Vault in files then Some(files[Vault]) else if Rollback in files then Some(files[Rollback]) else None
  }

  lemma MeaningIsRecovered(files: Files)
    ensures Rollback !in Recovered(files)
    ensures Meaning(files) == if Vault in Recovered(files) then Some(Recovered(files)[Vault]) else None
    ensures Recovered(Recovered(files)) == Recovered(files)
  {}

  class VaultFiles {
    var files: Files
    ghost var troubles: nat
    /** The publications whose link to the vault took effect, in that order. */
    ghost var commits: seq<nat>

    constructor ()
      ensures files == map[] && troubles == 0 && commits == []
    {
      files, troubles, commits := map[], 0, [];
    }

    method Next() returns (f: Fault)
      modifies this`troubles
      ensures troubles == if f.Sound? then old(troubles) else old(troubles) + 1
    {
      f := *;
      if !f.Sound? { troubles := troubles + 1; }
    }

    method Gate() returns (r: Outcome)
      modifies this`troubles
      ensures troubles == if r.Ok? then old(troubles) else old(troubles) + 1
    {
      var f := Next();
      r := OutcomeOf(f);
    }

    method Exists(name: Name) returns (r: Outcome, found: bool)
      modifies this`troubles
      ensures troubles == if r.Ok? then old(troubles) else old(troubles) + 1
      ensures r.Ok? ==> (found <==> name in files)
    {
      r := Gate();
      found := name in files;
    }

    /** link: refuses an existing name. A link from a temporary file to the vault is logged when it takes effect. */
    method Link(source: Name, name: Name) returns (r: Outcome)
      requires source in files
      modifies this
      ensures commits == old(commits) + if files != old(files) && source.Temp? && name == Vault then [source.id] else []
      ensures files == old(files) || (name !in old(files) && files == old(files)[name := old(files)[source]])
      ensures r.Ok? ==> name !in old(files) && files == old(files)[name := old(files)[source]]
      ensures r.Failed? ==> files == old(files)
      ensures troubles >= old(troubles) && (troubles == old(troubles) && name !in old(files) ==> r.Ok?)
    {
      var f := Next();
      r := OutcomeOf(f);
      if name in files {
        if r.Ok? { r := Failed; }
      } else if Effective(f) {
        files := files[name := files[source]];
        if source.Temp? && name == Vault { commits := commits + [source.id]; }
      }
    }

    method Remove(name: Name) returns (r: Outcome)
      modifies this`files, this`troubles
      ensures files == old(files) || files == old(files) - {name}
      ensures r.Ok? ==> files == old(files) - {name}
      ensures r.Failed? ==> files == old(files)
      ensures troubles == if r.Ok? then old(troubles) else old(troubles) + 1
    {
      var f := Next();
      r := OutcomeOf(f);
      if Effective(f) { files := files - {name}; }
    }

    /** recover: however it ends, the files stand for the same recovered state; when it completes they are
        that state. */
    method Recover() returns (r: Outcome)
      modifies this
      ensures Recovered(files) == Recovered(old(files)) && commits == old(commits)
      ensures r.Ok? ==> files == Recovered(old(files))
      ensures troubles >= old(troubles) && (troubles == old(troubles) ==> r.Ok?)
    {
      var found;
      r, found := Exists(Vault);
      if !r.Ok? { return; }
      if found {
        r := Remove(Rollback);
        return;
      }
      r, found := Exists(Rollback);
      if !r.Ok? || !found { return; }
      r := Link(Rollback, Vault);
      if !r.Ok? { return; }
      r := Remove(Rollback);
    }

    /** The swap of a rotation: link the old vault aside, remove it, link the new one. `linked` is whether the new
        envelope's link is logged. */
    method Rotate(id: nat) returns (r: Outcome, ghost linked: bool)
      requires Temp(id) in files && Vault in files && Rollback !in files
      modifies this
      ensures Temp(id) in files && files[Temp(id)] == old(files)[Temp(id)]
      ensures commits == old(commits) + if linked then [id] else []
      ensures Meaning(files) == Some(if linked then old(files)[Temp(id)] else old(files)[Vault])
      ensures r.Ok? ==> linked
      ensures r.Failed? ==> !linked
      ensures troubles >= old(troubles)
      ensures troubles == old(troubles) ==> r.Ok? && files == old(files)[Vault := old(files)[Temp(id)]]
    {
      linked := false;
      r := Link(Vault, Rollback);
      if !r.Ok? { return; }
      r := Remove(Vault);
      if r.Dead? { return; }
      if r.Failed? {
        var cleaned := Remove(Rollback);
        if cleaned.Dead? { r := Dead; }
        return;
      }
      r := Link(Temp(id), Vault);
      linked := Vault in files;
      if r.Dead? { return; }
      if r.Failed? {
        var restored := Link(Rollback, Vault);
        if restored.Dead? { r := Dead; }
        return;
      }
      var cleaned := Remove(Rollback);
      if cleaned.Dead? { r := Dead; }
    }

    /** The new envelope's link: to a free name, or by the swap. */
    method LinkOrSwap(id: nat, replace: bool) returns (r: Outcome, ghost linked: bool)
      requires Temp(id) in files && Rollback !in files
      modifies this
      ensures Temp(id) in files && files[Temp(id)] == old(files)[Temp(id)]
      ensures commits == old(commits) + if linked then [id] else []
      ensures Meaning(files) == if linked then Some(old(files)[Temp(id)]) else Meaning(old(files))
      ensures r.Ok? ==> linked
      ensures r.Failed? ==> !linked
      ensures linked ==> (replace <==> Vault in old(files))
      ensures troubles >= old(troubles)
      ensures troubles == old(troubles) && (replace <==> Vault in old(files)) ==>
        r.Ok? && files == old(files)[Vault := old(files)[Temp(id)]]
    {
      linked := false;
      if !replace {
        r := Link(Temp(id), Vault);
        linked := files != old(files);
      } else {
        var found;
        r, found := Exists(Vault);
        if r.Ok? {
          if !found { r := Failed; }
          else { r, linked := Rotate(id); }
        }
      }
    }

    /** publish: recovery, a private temporary with the new envelope, and the link or the swap. `Ok` is a
        committed result, with or without a cleanup warning. */
    method Publish(id: nat, data: Envelope, replace: bool) returns (r: Outcome, ghost linked: bool)
      requires Temp(id) !in files
      modifies this
      ensures commits == old(commits) + if linked then [id] else []
      ensures Meaning(files) == if linked then Some(data) else Meaning(old(files))
      ensures r.Ok? ==> linked
      ensures r.Failed? ==> !linked
      ensures linked ==> (replace <==> Meaning(old(files)).Some?)
      ensures troubles == old(troubles) && (replace <==> Meaning(old(files)).Some?) ==>
                r.Ok? && files == Recovered(old(files))[Vault := data]
    {
      linked := false;
      r := Recover();
      MeaningIsRecovered(old(files));
      MeaningIsRecovered(files);
      if !r.Ok? { return; }
      r := Gate();
      if !r.Ok? { return; }
      files := files[Temp(id) := ""];
      r := Gate();
      if r.Ok? {
        files := files[Temp(id) := data];
        r, linked := LinkOrSwap(id, replace);
      }
      if !r.Dead? {
        var removed := Remove(Temp(id));
        if removed.Dead? { r := Dead; }
      }
    }

    /** Delete: the vault, then the rollback with its error ignored. */
    method Delete(first: Fault, second: Fault) returns (d: Deletion)
      modifies this`files
      ensures (files, d) == DeleteRun(old(files), first, second)
    {
      if Vault !in files && first.Sound? {
        assert files - {Vault} == files;
        if Effective(second) { files := files - {Rollback}; }
        return if OutcomeOf(second).Dead? then Died else NothingThere;
      }
      if Effective(first) { files := files - {Vault}; }
      if !first.Sound? { return if first.Fails? then Error else Died; }
      if Effective(second) { files := files - {Rollback}; }
      return if OutcomeOf(second).Dead? then Died else Deleted;
    }
  }

  datatype Deletion = Deleted | NothingThere | Error | Died

  /** Delete as a function of the faults of its two removals. */
  function DeleteRun(files: Files, first: Fault, second: Fault): (Files, Deletion) {
    var unlinked := if Effective(first) then files - {Vault} else files;
    if first.Fails? then (unlinked, Error)
    else if !first.Sound? then (unlinked, Died)
    else
      var cleaned := if Effective(second) then unlinked - {Rollback} else unlinked;
      (cleaned, if OutcomeOf(second).Dead? then Died else if Vault in files then Deleted else NothingThere)
  }

  predicate ReportsDeleted(d: Deletion) { d.Deleted? || d.NothingThere? }

  /** A delete that reports success is final exactly when no rollback was there. Otherwise the ignored
      failure of the second removal leaves an envelope that the next recovery puts back in the vault. */
  lemma DeleteIsFinalWithoutRollback(files: Files)
    ensures (forall first, second ::
               ReportsDeleted(DeleteRun(files, first, second).1) ==> Meaning(DeleteRun(files, first, second).0) == None)
            <==> Rollback !in files
  {
    if Rollback in files {
      var run := DeleteRun(files, Sound, Fails);
      assert ReportsDeleted(run.1) && Meaning(run.0) == Some(files[Rollback]);
    }
  }

  /** A rotation that may die anywhere, then recoveries that may die anywhere, one of which completes: the vault holds
      the new envelope exactly when its link is logged, and the old one otherwise. */
  method RotateAndRecover(vault: VaultFiles, id: nat, data: Envelope, tries: nat)
    returns (recovered: bool, ghost linked: bool)
    requires Temp(id) !in vault.files && Meaning(vault.files).Some?
    modifies vault
    ensures vault.commits == old(vault.commits) + if linked then [id] else []
    ensures recovered ==> Vault in vault.files && Rollback !in vault.files
    ensures recovered ==> vault.files[Vault] == if linked then data else Meaning(old(vault.files)).value
  {
    var r;
    r, linked := vault.Publish(id, data, true);
    recovered := false;
    for i := 0 to tries
      invariant vault.commits == old(vault.commits) + if linked then [id] else []
      invariant Meaning(vault.files) == Some(if linked then data else Meaning(old(vault.files)).value)
      invariant recovered ==> Vault in vault.files && Rollback !in vault.files
    {
      MeaningIsRecovered(vault.files);
      r := vault.Recover();
      MeaningIsRecovered(vault.files);
      recovered := r.Ok?;
    }
  }
}
