/** The recorder itself: an object that updates its path, its record and the files it keeps, each method meeting
    the step of ExecutionRuns it stands for. */
module ExecutionRecorders {
  import opened Wrappers
  import opened ExecutionManifests
  import opened ExecutionRuns

  datatype WriteFault = NoFault | TextFails | ReplaceFails

  /** The manifest directory, with the temporary files of writes under way. */
  class ManifestStore {
    var files: Files
    var temporaries: Files

    constructor ()
      ensures files == map[] && temporaries == map[]
    {
      files, temporaries := map[], map[];
    }

    predicate CanWrite(location: Location, fault: WriteFault)
      reads this
    {
      location !in temporaries && fault.NoFault?
    }

    /** `write_execution_manifest`: through a temporary file that is replaced or removed, whatever fails. */
    method Write(manifest: Manifest, location: Location, overwrite: bool, fault: WriteFault) returns (ok: bool)
      modifies this
      ensures ok ==
              old(manifest.Identity() == location && (overwrite || location !in files) && CanWrite(location, fault))
      ensures files == if ok then old(files)[location := manifest] else old(files)
      ensures temporaries == old(temporaries)
    {
      if manifest.Identity() != location || (location in files && !overwrite) || location in temporaries {
        return false;
      }
      ghost var before := temporaries;
      ok := false;
      if !fault.TextFails? {
        temporaries := temporaries[location := manifest];
        if !fault.ReplaceFails? {
          files := files[location := temporaries[location]];
          temporaries := temporaries - {location};
          ok := true;
        }
      }
      if location in temporaries {
        temporaries := temporaries - {location};
      }
      assert temporaries == before;
    }

    method Unlink(location: Location, fails: bool) returns (ok: bool)
      modifies this`files
      ensures ok == !fails
      ensures files == if ok then old(files) - {location} else old(files)
    {
      ok := !fails;
      if ok {
        files := files - {location};
      }
    }

    /** `finalize_recovered_execution_success` */
    method FinalizeRecovered(hash: Hasher, location: Location, report: string, service: string, now: real,
                             fault: WriteFault)
      returns (accepted: bool)
      modifies this
      ensures temporaries == old(temporaries)
      ensures Some(files) ==
              old(RecoveredFiles(hash, files, location, report, service, now, !CanWrite(location, fault)))
              || !accepted
      ensures accepted ==
              old(RecoveredFiles(hash, files, location, report, service, now, !CanWrite(location, fault))).Some?
      ensures !accepted ==> files == old(files)
    {
      if !IsSha256(report) || service != "success" || location !in files {
        return false;
      }
      var manifest := files[location];
      if !manifest.Valid(hash) || manifest.Identity() != location || manifest.status.Failed? {
        return false;
      }
      if manifest.status.Succeeded? {
        return true;
      }
      var restored := Recovered(manifest, report, now);
      if !restored.Valid(hash) {
        return false;
      }
      accepted := Write(restored, location, true, fault);
    }
  }

  /** `_validated_hash_inventory` */
  method ValidatedInventory(values: Hashes) returns (validated: Option<Hashes>)
    ensures validated == if IsInventory(values) then Some(values) else None
  {
    var result: Hashes := map[];
    var remaining := values.Keys;
    while remaining != {}
      invariant remaining <= values.Keys
      invariant result.Keys == values.Keys - remaining
      invariant forall path | path in result :: result[path] == values[path]
      invariant IsInventory(result)
      decreases remaining
    {
      var path :| path in remaining;
      if !IsConfinedPath(path) || !IsSha256(values[path]) {
        return None;
      }
      result := result[path := values[path]];
      remaining := remaining - {path};
    }
    assert result == values;
    validated := Some(result);
  }

  /** `merge`: nothing when a recorded digest would change, otherwise the union and whether it has news. */
  method MergeInventory(existing: Hashes, incoming: Hashes) returns (merged: Option<(Hashes, bool)>)
    ensures merged ==
            if Agree(existing, incoming) then Some((existing + incoming, !(incoming.Keys <= existing.Keys))) else None
  {
    var result := existing;
    var added := false;
    var remaining := incoming.Keys;
    while remaining != {}
      invariant remaining <= incoming.Keys
      invariant result.Keys == existing.Keys + (incoming.Keys - remaining)
      invariant forall path | path in existing :: result[path] == existing[path]
      invariant forall path | path in incoming && path !in remaining :: result[path] == incoming[path]
      invariant added <==> !(incoming.Keys - remaining <= existing.Keys)
      decreases remaining
    {
      var path :| path in remaining;
      if path in result {
        if result[path] != incoming[path] {
          assert path in existing && existing[path] != incoming[path];
          return None;
        }
      } else {
        result := result[path := incoming[path]];
        added := true;
      }
      remaining := remaining - {path};
    }
    assert result == existing + incoming;
    assert incoming.Keys - remaining == incoming.Keys;
    merged := Some((result, added));
  }

  /** What `bind_resume_lineage` computes before it touches the record. */
  method UpdatedLineage(current: ResumeLineage, artifacts: Hashes, manifests: Hashes, parts: Hashes)
    returns (lineage: Option<ResumeLineage>)
    ensures lineage == LineageUpdate(current, artifacts, manifests, parts)
  {
    if current.status.NotRequested? {
      return None;
    }
    var checkedArtifacts := ValidatedInventory(artifacts);
    var checkedManifests := ValidatedInventory(manifests);
    var checkedParts := ValidatedInventory(parts);
    if checkedArtifacts.None? || checkedManifests.None? || checkedParts.None? {
      return None;
    }
    if checkedArtifacts.value == map[] && checkedManifests.value == map[] && checkedParts.value == map[] {
      return None;
    }
    var a := MergeInventory(current.artifactParts, checkedArtifacts.value);
    var m := MergeInventory(current.checkpointManifests, checkedManifests.value);
    var p := MergeInventory(current.checkpointParts, checkedParts.value);
    if a.None? || m.None? || p.None? || !(a.value.1 || m.value.1 || p.value.1) {
      return None;
    }
    var candidate := ResumeLineage(current.stagingDirectory, ValidatedAndReused, true, a.value.0, m.value.0, p.value.0);
    lineage := if candidate.Valid() then Some(candidate) else None;
  }

  class ExecutionRecorder {
    const hash: Hasher
    const store: ManifestStore
    var manifestPath: Location
    var manifest: Manifest

    ghost function Now(): State
      reads this, store
    {
      State(store.files, manifestPath, manifest)
    }

    constructor (hash: Hasher, store: ManifestStore, manifestPath: Location, manifest: Manifest)
      ensures this.hash == hash && this.store == store && this.manifestPath == manifestPath && this.manifest == manifest
    {
      this.hash, this.store, this.manifestPath, this.manifest := hash, store, manifestPath, manifest;
    }

    /** `begin`, once it has looked around. */
    static method Begin(hash: Hasher, store: ManifestStore, c: Context, fault: WriteFault)
      returns (recorder: Option<ExecutionRecorder>)
      modifies store
      ensures store.temporaries == old(store.temporaries)
      ensures recorder.None? ==> store.files == old(store.files)
      ensures recorder.Some? ==> fresh(recorder.value) && recorder.value.hash == hash && recorder.value.store == store
      ensures old(ExecutionRuns.Begin(hash, store.files, c, !store.CanWrite(Fresh(hash, c).Identity(), fault)))
              == if recorder.None? then None else Some(recorder.value.Now())
    {
      var manifest := Fresh(hash, c);
      if !manifest.Valid(hash) {
        return None;
      }
      var location := manifest.Identity();
      var written := store.Write(manifest, location, false, fault);
      if !written {
        return None;
      }
      var r := new ExecutionRecorder(hash, store, location, manifest);
      recorder := Some(r);
    }

    /** `_persist`, after the record has been validated. */
    method Save(next: Manifest, fault: WriteFault) returns (accepted: bool)
      modifies this, store
      ensures Outcome(Now(), accepted) == old(Persist(hash, Now(), next, !store.CanWrite(manifestPath, fault)))
      ensures store.temporaries == old(store.temporaries)
    {
      if !next.Valid(hash) {
        return false;
      }
      accepted := store.Write(next, manifestPath, true, fault);
      if accepted {
        manifest := next;
      }
    }

    method BindConfiguration(hashes: Hashes, seed: int, seeds: map<string, int>, versions: map<string, string>,
                             fault: WriteFault)
      returns (accepted: bool)
      modifies this, store
      ensures Outcome(Now(), accepted) ==
              old(Step(hash, Now(),
                ExecutionRuns.BindConfiguration(hashes, seed, seeds, versions, !store.CanWrite(manifestPath, fault))))
      ensures store.temporaries == old(store.temporaries)
    {
      if !manifest.status.Running? {
        return false;
      }
      accepted := Save(Configured(hash, manifest, hashes, seed, seeds, versions), fault);
    }

    method BindRun(runId: string, inputs: Hashes, versions: map<string, string>, splits: Hashes, fault: WriteFault,
                   unlinkFails: bool)
      returns (accepted: bool)
      modifies this, store
      ensures Outcome(Now(), accepted) ==
              old(var writeFails := !store.CanWrite(Location(runId, manifest.executionId), fault);
                  Step(hash, Now(), ExecutionRuns.BindRun(runId, inputs, versions, splits, writeFails, unlinkFails)))
      ensures store.temporaries == old(store.temporaries)
    {
      if !manifest.status.Running? || !IsSafeIdentifier(runId) {
        return false;
      }
      var next := RunBound(manifest, runId, inputs, versions, splits);
      if !next.Valid(hash) {
        return false;
      }
      var former, moved := manifestPath, Location(runId, next.executionId);
      if moved in store.files {
        return false;
      }
      var written := store.Write(next, moved, false, fault);
      if !written {
        return false;
      }
      if former in store.files {
        var removed := store.Unlink(former, unlinkFails);
        if !removed {
          return false;
        }
      }
      assert store.files == old(store.files)[moved := next] - {former};
      manifestPath := moved;
      manifest := next;
      accepted := true;
    }

    method BindResumeLineage(artifacts: Hashes, manifests: Hashes, parts: Hashes, fault: WriteFault)
      returns (accepted: bool)
      modifies this, store
      ensures Outcome(Now(), accepted) ==
              old(Step(hash, Now(), BindResume(artifacts, manifests, parts, !store.CanWrite(manifestPath, fault))))
      ensures store.temporaries == old(store.temporaries)
    {
      if !manifest.status.Running? {
        return false;
      }
      var lineage := UpdatedLineage(manifest.resumeLineage, artifacts, manifests, parts);
      if lineage.None? {
        return false;
      }
      accepted := Save(Resumed(manifest, lineage.value), fault);
    }

    method BindOutputs(logical: Hashes, physical: Hashes, hashManifest: Option<string>, fault: WriteFault)
      returns (accepted: bool)
      modifies this, store
      ensures Outcome(Now(), accepted) ==
              old(Step(hash, Now(),
                ExecutionRuns.BindOutputs(logical, physical, hashManifest, !store.CanWrite(manifestPath, fault))))
      ensures store.temporaries == old(store.temporaries)
    {
      if !manifest.status.Running? || hashManifest.None? {
        return false;
      }
      accepted := Save(WithOutputs(manifest, logical, physical, hashManifest), fault);
    }

    method FinalizeSuccess(now: real, elapsed: real, messages: seq<string>, fault: WriteFault) returns (accepted: bool)
      modifies this, store
      ensures Outcome(Now(), accepted) ==
              old(Step(hash, Now(),
                ExecutionRuns.FinalizeSuccess(now, elapsed, messages, !store.CanWrite(manifestPath, fault))))
      ensures store.temporaries == old(store.temporaries)
    {
      if !manifest.status.Running? {
        return false;
      }
      accepted := Save(Finished(manifest, now, elapsed, messages), fault);
    }

    method FinalizeFailure(now: real, elapsed: real, message: string, fault: WriteFault) returns (accepted: bool)
      modifies this, store
      ensures Outcome(Now(), accepted) ==
              old(Step(hash, Now(),
                ExecutionRuns.FinalizeFailure(now, elapsed, message, !store.CanWrite(manifestPath, fault))))
      ensures store.temporaries == old(store.temporaries)
    {
      if !manifest.status.Running? {
        return false;
      }
      accepted := Save(Broken(manifest, now, elapsed, message), fault);
    }
  }
}
