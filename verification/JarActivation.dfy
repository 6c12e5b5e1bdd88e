/** Activation of the Mapepire server JAR over remote files. Every remote operation takes effect or fails
    unchanged, and the client may die before or after any of them; a write may also store something else
    than was sent. A digest stands for the content it was computed from. */
module JarActivation {
  type Content = string
  type Path = string

  const MAX_JAR: nat := 64 * 1024 * 1024

  datatype Fault = Sound | Fails | DiesBefore | DiesAfter

  datatype Outcome = Ok | Failed | Dead

  function OutcomeOf(f: Fault): Outcome {
    match f case Sound => Ok case Fails => Failed case DiesBefore => Dead case DiesAfter => Dead
  }

  predicate Effective(f: Fault) { f.Sound? || f.DiesAfter? }

  datatype Digest = Of(content: Content) | Missing | NotRead(outcome: Outcome)

  type Files = map<Path, Content>

  /** What survives: a JAR that was installed is at the target or at the backup, or the target holds the
      expected JAR. */
  ghost predicate Survives(before: Files, files: Files, target: Path, backup: Path, expected: Content) {
    target in before ==>
      || (target in files && (files[target] == before[target] || files[target] == expected))
      || (backup in files && files[backup] == before[target])
  }

  /** Only these paths differ. */
  ghost predicate SameBut(before: Files, files: Files, paths: set<Path>) {
    forall p | p !in paths && (p in before || p in files) :: p in before && p in files && before[p] == files[p]
  }

  class RemoteFiles {
    var files: Files
    ghost var troubles: nat

    constructor (files: Files)
      ensures this.files == files && troubles == 0
    {
      this.files, this.troubles := files, 0;
    }

    method Next() returns (f: Fault)
      modifies this`troubles
      ensures troubles == if f.Sound? then old(troubles) else old(troubles) + 1
    {
      f := *;
      if !f.Sound? { troubles := troubles + 1; }
    }

    /** An operation that moves no file: the home, the directory, a mode change, a check of the local JAR. */
    method Gate() returns (r: Outcome)
      modifies this`troubles
      ensures troubles == if r.Ok? then old(troubles) else old(troubles) + 1
    {
      var f := Next();
      r := OutcomeOf(f);
    }

    /** inspectRemoteJAR and remoteSHA256: the content of a bounded regular file. */
    method Inspect(path: Path) returns (d: Digest)
      modifies this`troubles
      ensures d.Of? ==> path in files && d.content == files[path] && |d.content| <= MAX_JAR
      ensures d.Missing? ==> path !in files
      ensures d.NotRead? ==> !d.outcome.Ok?
      ensures troubles == old(troubles) || (troubles == old(troubles) + 1 && d.NotRead?)
      ensures troubles == old(troubles) ==>
                d == if path !in files then Missing
                     else if |files[path]| <= MAX_JAR then Of(files[path]) else NotRead(Failed)
    {
      var f := Next();
      if !f.Sound? { return NotRead(OutcomeOf(f)); }
      if path !in files { return Missing; }
      d := if |files[path]| <= MAX_JAR then Of(files[path]) else NotRead(Failed);
    }

    method OpenWriteExclusive(path: Path) returns (r: Outcome)
      modifies this
      ensures files == old(files) || (path !in old(files) && files == old(files)[path := ""])
      ensures r.Ok? ==> path in files && path !in old(files)
      ensures r.Failed? ==> files == old(files)
      ensures r.Ok? ==> troubles == old(troubles)
      ensures troubles == old(troubles) && path !in old(files) ==> r.Ok?
      ensures old(troubles) <= troubles <= old(troubles) + 1
    {
      var f := Next();
      r := OutcomeOf(f);
      if path in files {
        if r.Ok? { r := Failed; }
      } else if Effective(f) {
        files := files[path := ""];
      }
    }

    /** A copy into an open file: it may stop part of the way or store other bytes, with or without an
        error. */
    method Write(path: Path, content: Content) returns (r: Outcome)
      requires path in files
      modifies this
      ensures path in files && SameBut(old(files), files, {path})
      ensures troubles == old(troubles) ==> r.Ok? && files == old(files)[path := content]
      ensures old(troubles) <= troubles <= old(troubles) + 1
    {
      var f := Next();
      var silent: bool := *;
      r := if silent && !f.Sound? then Ok else OutcomeOf(f);
      var stored: Content := *;
      if f.Sound? { stored := content; }
      files := files[path := stored];
    }

    method Remove(path: Path) returns (r: Outcome)
      modifies this
      ensures files == old(files) || files == old(files) - {path}
      ensures r.Ok? ==> files == old(files) - {path}
      ensures r.Failed? ==> files == old(files)
      ensures troubles == if r.Ok? then old(troubles) else old(troubles) + 1
    {
      var f := Next();
      r := OutcomeOf(f);
      if Effective(f) { files := files - {path}; }
    }

    /** A rename onto an existing file replaces it or fails. */
    method Rename(source: Path, target: Path) returns (r: Outcome)
      requires source in files && source != target
      modifies this
      ensures files == old(files) || files == (old(files) - {source})[target := old(files)[source]]
      ensures r.Ok? ==> files == (old(files) - {source})[target := old(files)[source]]
      ensures r.Failed? ==> files == old(files)
      ensures troubles == old(troubles) && target !in old(files) ==> r.Ok?
      ensures r.Ok? ==> troubles == old(troubles)
      ensures old(troubles) <= troubles <= old(troubles) + 1
    {
      var f := Next();
      r := OutcomeOf(f);
      var refuses: bool := *;
      if target in files && refuses {
        if r.Ok? { r := Failed; }
      } else if Effective(f) {
        files := (files - {source})[target := files[source]];
      }
    }
  }

  /** Removes a file of this run unless the client has died; a removal that fails is an error. */
  method RemoveOwned(remote: RemoteFiles, path: Path, before: Outcome) returns (r: Outcome)
    modifies remote
    ensures remote.files == old(remote.files) || remote.files == old(remote.files) - {path}
    ensures before.Dead? ==> r.Dead? && remote.files == old(remote.files)
    ensures r.Ok? ==> before.Ok? && remote.files == old(remote.files) - {path}
    ensures old(remote.troubles) <= remote.troubles <= old(remote.troubles) + 1
    ensures !before.Dead? && remote.troubles == old(remote.troubles) ==>
      r == before && remote.files == old(remote.files) - {path}
  {
    if before.Dead? { return Dead; }
    var removed := remote.Remove(path);
    r := if removed.Ok? then before else removed;
  }

  /** Upload of the verified local JAR under a fresh name, and the check of what was stored. */
  method Upload(remote: RemoteFiles, temp: Path, expected: Content) returns (r: Outcome, owned: bool)
    requires |expected| <= MAX_JAR
    modifies remote
    ensures SameBut(old(remote.files), remote.files, {temp})
    ensures owned ==> temp in remote.files && temp !in old(remote.files)
    ensures !owned && !r.Dead? ==> remote.files == old(remote.files)
    ensures r.Ok? ==> owned && remote.files[temp] == expected
    ensures remote.troubles >= old(remote.troubles)
    ensures remote.troubles == old(remote.troubles) && temp !in old(remote.files) ==> r.Ok?
    ensures temp in old(remote.files) ==> remote.files == old(remote.files)
  {
    r := remote.OpenWriteExclusive(temp);
    owned := r.Ok?;
    if r.Ok? { r := remote.Write(temp, expected); }
    if r.Ok? { r := remote.Gate(); }
    if r.Ok? {
      var d := remote.Inspect(temp);
      if d.NotRead? { r := d.outcome; }
      else if d != Of(expected) { r := Failed; }
    }
  }

  /** copyRemoteExclusive: a verified copy of the installed JAR, or no copy at all if its own cleanup works. */
  method Preserve(remote: RemoteFiles, target: Path, backup: Path, prior: Content) returns (r: Outcome)
    requires target != backup && target in remote.files && remote.files[target] == prior && |prior| <= MAX_JAR
    modifies remote
    ensures SameBut(old(remote.files), remote.files, {backup})
    ensures r.Ok? ==> remote.files == old(remote.files)[backup := prior] && backup !in old(remote.files)
    ensures remote.troubles >= old(remote.troubles)
    ensures r.Failed? && remote.troubles <= old(remote.troubles) + 1 ==> remote.files == old(remote.files)
    ensures remote.troubles == old(remote.troubles) && backup !in old(remote.files) ==> r.Ok?
    ensures backup in old(remote.files) ==> remote.files == old(remote.files)
  {
    var seen := remote.Inspect(target);
    if !seen.Of? { return if seen.NotRead? then seen.outcome else Failed; }
    r := remote.OpenWriteExclusive(backup);
    if !r.Ok? { return; }
    assert remote.files - {backup} == old(remote.files) - {backup} && remote.files - {backup} == old(remote.files);
    r := remote.Write(backup, seen.content);
    if r.Ok? { r := remote.Gate(); }
    if r.Ok? {
      var copy := remote.Inspect(backup);
      if copy.NotRead? { r := copy.outcome; }
      else if copy != Of(prior) { r := Failed; }
    }
    if r.Failed? {
      var removed := remote.Remove(backup);
      if removed.Dead? { return Dead; }
    }
  }

  /** restoreRemoteJAR: the backup becomes the target again. */
  method Restore(remote: RemoteFiles, backup: Path, target: Path, priorExists: bool) returns (r: Outcome)
    requires backup != target && (priorExists ==> backup in remote.files)
    modifies remote
    ensures remote.files == old(remote.files)
            || (priorExists && remote.files == (old(remote.files) - {backup})[target := old(remote.files)[backup]])
    ensures r.Ok? && priorExists ==> remote.files == (old(remote.files) - {backup})[target := old(remote.files)[backup]]
    ensures remote.troubles >= old(remote.troubles)
    ensures remote.troubles == old(remote.troubles) && (priorExists ==> target !in old(remote.files)) ==> r.Ok?
  {
    if !priorExists { return Ok; }
    r := remote.Rename(backup, target);
  }

  /** The random names are unused and an installed JAR is within the size bound. */
  predicate Clean(files: Files, target: Path, temp: Path, backup: Path) {
    temp !in files && backup !in files && (target in files ==> |files[target]| <= MAX_JAR)
  }

  datatype Placed = Placed(r: Outcome, tempOwned: bool, backupOwned: bool)

  /** The installation after a failed activation with a single fault: as before, or with the new JAR. */
  ghost predicate Settled(before: Files, files: Files, target: Path, scratch: set<Path>, expected: Content) {
    SameBut(before, files, scratch) || SameBut(before[target := expected], files, scratch)
  }

  /** The files an activation works with: a backup only when there is a JAR to keep. */
  function Scratch(priorExists: bool, temp: Path, backup: Path): set<Path> {
    if priorExists then {temp, backup} else {temp}
  }

  /** Moves the verified upload into place, verifies it there, and puts the old JAR back otherwise. */
  method Activate(remote: RemoteFiles, target: Path, temp: Path, backup: Path, priorExists: bool, expected: Content)
    returns (p: Placed)
    requires target != temp && target != backup && temp != backup && |expected| <= MAX_JAR
    requires temp in remote.files && remote.files[temp] == expected
    requires if priorExists then target in remote.files && backup in remote.files
      && remote.files[backup] == remote.files[target]
             else target !in remote.files
    modifies remote
    ensures SameBut(old(remote.files), remote.files, {target, temp, backup})
    ensures Survives(old(remote.files), remote.files, target, backup, expected)
    ensures p.backupOwned && !p.r.Dead? && priorExists ==>
              && target in remote.files
              && (remote.files[target] == old(remote.files)[target] || remote.files[target] == expected)
    ensures p.r.Ok? ==> remote.files == (old(remote.files) - Scratch(priorExists, temp, backup))[target := expected]
    ensures p.backupOwned ==> priorExists
    ensures remote.troubles >= old(remote.troubles)
    ensures p.r.Failed? && remote.troubles <= old(remote.troubles) + 1 ==>
              && Settled(old(remote.files), remote.files, target, Scratch(priorExists, temp, backup), expected)
              && (temp in remote.files ==> p.tempOwned) && (priorExists && backup in remote.files ==> p.backupOwned)
    ensures remote.troubles == old(remote.troubles) ==> p.r.Ok?
  {
    if priorExists {
      var removed := remote.Remove(target);
      if !removed.Ok? { return Placed(removed, true, true); }
    }
    var renamed := remote.Rename(temp, target);
    if renamed.Dead? { return Placed(Dead, true, priorExists); }
    if renamed.Failed? {
      var restored := Restore(remote, backup, target, priorExists);
      return Placed(if restored.Dead? then Dead else Failed, true, false);
    }
    p := Confirm(remote, target, backup, priorExists, expected);
  }

  /** The part of an activation after the rename. */
  method Confirm(remote: RemoteFiles, target: Path, backup: Path, priorExists: bool, expected: Content)
    returns (p: Placed)
    requires target != backup && |expected| <= MAX_JAR
    requires target in remote.files && remote.files[target] == expected && (priorExists ==> backup in remote.files)
    modifies remote
    ensures !p.tempOwned && (p.backupOwned ==> priorExists)
    ensures SameBut(old(remote.files), remote.files, {target, backup})
    ensures priorExists ==>
      || (target in remote.files
          && (remote.files[target] == old(remote.files)[backup] || remote.files[target] == expected))
      || (backup in remote.files && remote.files[backup] == old(remote.files)[backup])
    ensures p.backupOwned && !p.r.Dead? ==> target in remote.files && remote.files[target] == expected
    ensures p.r.Ok? ==> remote.files == if priorExists then old(remote.files) - {backup} else old(remote.files)
    ensures remote.troubles >= old(remote.troubles)
    ensures p.r.Failed? && remote.troubles <= old(remote.troubles) + 1 ==>
              && (priorExists && backup in remote.files ==> p.backupOwned)
              && ((priorExists && remote.files == old(remote.files))
                  || (priorExists
                      && remote.files == (old(remote.files) - {backup})[target := old(remote.files)[backup]])
                  || (!priorExists && remote.files == old(remote.files) - {target}))
    ensures remote.troubles == old(remote.troubles) ==> p.r.Ok?
  {
    var seen := remote.Inspect(target);
    if seen.NotRead? && seen.outcome.Dead? { return Placed(Dead, false, priorExists); }
    if seen != Of(expected) {
      var removed := remote.Remove(target);
      if removed.Dead? { return Placed(Dead, false, priorExists); }
      var restored := Restore(remote, backup, target, priorExists);
      return Placed(if restored.Dead? then Dead else Failed, false, false);
    }
    if priorExists {
      var cleaned := remote.Remove(backup);
      if !cleaned.Ok? { return Placed(cleaned, false, true); }
    }
    return Placed(Ok, false, false);
  }

  /** ensureServerJARWith after the local JAR has been verified. `Ok` is a nil error. */
  method EnsureServerJar(remote: RemoteFiles, target: Path, temp: Path, backup: Path, expected: Content)
    returns (r: Outcome)
    requires target != temp && target != backup && temp != backup && |expected| <= MAX_JAR
    modifies remote
    ensures SameBut(old(remote.files), remote.files, {target, temp, backup})
    ensures Survives(old(remote.files), remote.files, target, backup, expected)
    ensures r.Ok? ==> target in remote.files && remote.files[target] == expected
    ensures r.Ok? ==> remote.files == old(remote.files)[target := expected]
    ensures remote.troubles <= old(remote.troubles) + 1 ==> !r.Dead? ==>
            Clean(old(remote.files), target, temp, backup) ==>
              remote.files == old(remote.files) || remote.files == old(remote.files)[target := expected]
    ensures remote.troubles == old(remote.troubles) && Clean(old(remote.files), target, temp, backup) ==> r.Ok?
  {
    r := remote.Gate();
    if !r.Ok? { return; }
    var prior := remote.Inspect(target);
    if prior.NotRead? { return prior.outcome; }
    if prior == Of(expected) {
      r := remote.Gate();
      assert remote.files[target := expected] == remote.files;
      return;
    }
    r := Replace(remote, target, temp, backup, prior, expected);
  }

  /** Removing the upload, or the backup once a JAR is in place, leaves an installation. */
  lemma RemovalKeeps(before: Files, files: Files, path: Path, target: Path, temp: Path, backup: Path, expected: Content)
    requires SameBut(before, files, {target, temp, backup}) && Survives(before, files, target, backup, expected)
    requires target != temp && target != backup && temp != backup && (path == temp || path == backup)
    requires path == backup && target in before ==>
      target in files && (files[target] == before[target] || files[target] == expected)
    ensures SameBut(before, files - {path}, {target, temp, backup})
    ensures Survives(before, files - {path}, target, backup, expected)
  {
  }

  /** An activation with its deferred removals: a single failure ends in the old installation or the new. */
  method Finish(remote: RemoteFiles, target: Path, temp: Path, backup: Path, priorExists: bool, expected: Content)
    returns (r: Outcome)
    requires target != temp && target != backup && temp != backup && |expected| <= MAX_JAR
    requires temp in remote.files && remote.files[temp] == expected
    requires if priorExists then target in remote.files && backup in remote.files
      && remote.files[backup] == remote.files[target]
             else target !in remote.files
    modifies remote
    ensures SameBut(old(remote.files), remote.files, {target, temp, backup})
    ensures Survives(old(remote.files), remote.files, target, backup, expected)
    ensures r.Ok? ==> remote.files == (old(remote.files) - Scratch(priorExists, temp, backup))[target := expected]
    ensures remote.troubles >= old(remote.troubles)
    ensures remote.troubles <= old(remote.troubles) + 1 && !r.Dead? ==>
              var rest := old(remote.files) - Scratch(priorExists, temp, backup);
              remote.files == rest || remote.files == rest[target := expected]
    ensures remote.troubles == old(remote.troubles) ==> r.Ok?
  {
    hide SameBut, Survives, Settled;
    var p := Activate(remote, target, temp, backup, priorExists, expected);
    r := p.r;
    ghost var placed := remote.files;
    if p.backupOwned {
      if !r.Dead? { RemovalKeeps(old(remote.files), remote.files, backup, target, temp, backup, expected); }
      r := RemoveOwned(remote, backup, r);
    }
    if p.tempOwned {
      RemovalKeeps(old(remote.files), remote.files, temp, target, temp, backup, expected);
      r := RemoveOwned(remote, temp, r);
    }
    ghost var scratch := Scratch(priorExists, temp, backup);
    if remote.troubles <= old(remote.troubles) + 1 && r.Failed? {
      assert remote.files == placed - scratch;
      if p.r.Failed? {
        RemainsAre(old(remote.files), placed, target, scratch, expected);
      } else {
        assert placed - scratch == placed;
      }
    }
  }

  lemma RemainsAre(before: Files, files: Files, target: Path, scratch: set<Path>, expected: Content)
    requires target !in scratch && Settled(before, files, target, scratch, expected)
    ensures files - scratch == before - scratch || files - scratch == (before - scratch)[target := expected]
  {
    if SameBut(before, files, scratch) {
      assert files - scratch == before - scratch;
    } else {
      assert files - scratch == (before - scratch)[target := expected];
    }
  }

  /** Upload and backup: both are there, or a single failure leaves at most an upload that is owned. */
  method Prepare(remote: RemoteFiles, target: Path, temp: Path, backup: Path, prior: Digest, expected: Content)
    returns (r: Outcome, tempOwned: bool)
    requires target != temp && target != backup && temp != backup && |expected| <= MAX_JAR
    requires prior.Missing? || prior.Of?
    requires prior.Of? ==> target in remote.files && remote.files[target] == prior.content && |prior.content| <= MAX_JAR
    modifies remote
    ensures SameBut(old(remote.files), remote.files, {temp, backup})
    ensures tempOwned ==> temp !in old(remote.files)
    ensures r.Ok? ==> tempOwned && (prior.Of? ==> backup !in old(remote.files))
    ensures r.Ok? ==> remote.files == Prepared(old(remote.files), temp, backup, prior, expected)
    ensures remote.troubles >= old(remote.troubles)
    ensures r.Failed? && remote.troubles <= old(remote.troubles) + 1 ==>
              SameBut(old(remote.files), remote.files, {temp}) && (tempOwned || remote.files == old(remote.files))
    ensures remote.troubles == old(remote.troubles) && temp !in old(remote.files) && backup !in old(remote.files) ==>
      r.Ok?
  {
    r, tempOwned := Upload(remote, temp, expected);
    if r.Ok? {
      assert remote.files == old(remote.files)[temp := expected];
      if prior.Of? { r := Preserve(remote, target, backup, prior.content); }
    }
  }

  function Prepared(files: Files, temp: Path, backup: Path, prior: Digest, expected: Content): Files {
    if prior.Of? then files[temp := expected][backup := prior.content] else files[temp := expected]
  }

  lemma ScratchGone(files: Files, target: Path, temp: Path, backup: Path, prior: Digest, expected: Content)
    requires target != temp && target != backup && temp !in files && (prior.Of? ==> backup !in files)
    ensures Prepared(files, temp, backup, prior, expected) - Scratch(prior.Of?, temp, backup) == files
  {}

  /** Upload, backup, activation and the deferred removals. */
  method Replace(remote: RemoteFiles, target: Path, temp: Path, backup: Path, prior: Digest, expected: Content)
    returns (r: Outcome)
    requires target != temp && target != backup && temp != backup && |expected| <= MAX_JAR
    requires prior.Missing? || prior.Of?
    requires if prior.Of? then target in remote.files && remote.files[target] == prior.content
      && |prior.content| <= MAX_JAR
             else target !in remote.files
    modifies remote
    ensures SameBut(old(remote.files), remote.files, {target, temp, backup})
    ensures Survives(old(remote.files), remote.files, target, backup, expected)
    ensures r.Ok? ==> remote.files == old(remote.files)[target := expected]
    ensures remote.troubles >= old(remote.troubles)
    ensures remote.troubles <= old(remote.troubles) + 1 ==> !r.Dead? ==>
            temp !in old(remote.files) && backup !in old(remote.files) ==>
              remote.files == old(remote.files) || remote.files == old(remote.files)[target := expected]
    ensures remote.troubles == old(remote.troubles) && temp !in old(remote.files) && backup !in old(remote.files) ==>
      r.Ok?
  {
    var tempOwned;
    r, tempOwned := Prepare(remote, target, temp, backup, prior, expected);
    if r.Ok? {
      ScratchGone(old(remote.files), target, temp, backup, prior, expected);
      r := Finish(remote, target, temp, backup, prior.Of?, expected);
    } else if tempOwned {
      ghost var prepared := remote.files;
      r := RemoveOwned(remote, temp, r);
      assert SameBut(old(remote.files), prepared, {temp}) ==> prepared - {temp} == old(remote.files);
    }
  }
}
