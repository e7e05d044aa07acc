/** The registry configuration transition: backups, a marker, one rename, and its
    own recovery, from every state a stopped process can leave
    (`deployment/analytics_registry_stream_transition.py`). */
module RegistryTransition {
  import opened Wrappers

  type Bytes = seq<nat>
  type Digest = nat

  const MAXIMUM: nat := 1048576
  const BLOCK: nat := 65536

  /** `sha256`, the pinned hash of the reviewed configuration, its one-field
      change where the bytes have one, and the marker's text. */
  datatype Plan = Plan(sha: Bytes -> Digest, oldHash: Digest, change: Bytes -> Option<Bytes>, text: (Digest, Digest) -> Bytes)

  ghost predicate Injective(p: Plan) {
    forall a, b :: p.sha(a) == p.sha(b) ==> a == b
  }

  /** `target` refuses anything but the reviewed bytes. */
  function Target(p: Plan, raw: Bytes): Option<Bytes> {
    if p.sha(raw) == p.oldHash then p.change(raw) else None
  }

  function MarkerText(p: Plan, after: Bytes): Bytes {
    p.text(p.oldHash, p.sha(after))
  }

  datatype Name = Candidate | BeforeCopy | AfterCopy | MarkerDraft | Marker | RestoreCopy

  /** Owner and mode: as created, as the service needs it, or between the two. */
  datatype Meta = Private | Service | Halfway

  datatype File = File(raw: Bytes, meta: Meta)

  /** The live configuration, the transaction's own files, and whether its backup directory exists. */
  datatype State = State(config: Option<File>, files: map<Name, File>, backup: bool)

  predicate Has(s: State, name: Name, raw: Bytes, meta: Meta) {
    name in s.files && s.files[name] == File(raw, meta)
  }

  predicate Live(s: State, raw: Bytes) {
    s.config == Some(File(raw, Service))
  }

  predicate Sized(raw: Bytes) {
    0 < |raw| <= MAXIMUM
  }

  /** The reviewed preimage and its target, both of a size the tool can read back. */
  predicate Reviewed(p: Plan, before: Bytes, after: Bytes) {
    && Target(p, before) == Some(after)
    && Sized(before) && Sized(after) && Sized(MarkerText(p, after))
  }

  // ----- what every crash leaves ---------------------------------------------

  /** A file on its way to `raw`, or there. */
  predicate Part(f: File, raw: Bytes, meta: Meta) {
    (f.meta == Private && f.raw <= raw) || f == File(raw, Halfway) || f == File(raw, meta)
  }

  predicate Growing(s: State, name: Name, raw: Bytes, meta: Meta) {
    name in s.files ==> Part(s.files[name], raw, meta)
  }

  function With(s: State, name: Name, f: File): State {
    s.(files := s.files[name := f])
  }

  /** A marker stands only over complete and exact backups, and a restore copy
      only under a marker: whatever others do to the configuration. */
  predicate Backed(p: Plan, before: Bytes, after: Bytes, s: State) {
    && (Marker in s.files ==>
        && s.backup
        && Has(s, BeforeCopy, before, Private)
        && Has(s, AfterCopy, after, Private)
        && Has(s, Marker, p.text(p.oldHash, p.sha(after)), Private))
    && Growing(s, RestoreCopy, before, Service)
    && (RestoreCopy in s.files ==> Marker in s.files)
  }

  /** No marker: nothing was cut over. A marker: the live configuration is the old
      or the new one. */
  predicate Sound(p: Plan, before: Bytes, after: Bytes, s: State) {
    && Backed(p, before, after, s)
    && (Live(s, before) || (Marker in s.files && Live(s, after)))
  }

  /** Where a recovery can get through: nothing to restore, or a restore copy it can use or make. */
  predicate Restorable(s: State, before: Bytes) {
    Live(s, before) || RestoreCopy !in s.files || Has(s, RestoreCopy, before, Service)
  }

  /** One own rename over the configuration: what it replaced, and how many
      foreign writes had been made when that was last read, and by the rename. */
  datatype Swap = Swap(found: Option<File>, readAt: nat, renamedAt: nat)

  datatype Report = Installed | Recovered | Unchanged | Stopped | StopUnconfirmed | Refused

  /** The bytes `raw` are on their way into `name`. */
  ghost predicate Written(s0: State, s: State, name: Name, raw: Bytes, meta: Meta) {
    exists f :: Part(f, raw, meta) && s == With(s0, name, f)
  }

  class Registry {
    const plan: Plan
    const alone: bool // no other process writes the configuration meanwhile
    const faultless: bool // no operation fails for a reason outside the files
    var state: State
    var running: Option<Bytes> // the configuration the service was started with
    ghost var reached: seq<State>
    var foreign: nat // foreign writes so far: what a fingerprint of the configuration shows
    ghost var swaps: seq<Swap>

    constructor (plan: Plan, alone: bool, faultless: bool, state: State, running: Option<Bytes>)
      ensures this.plan == plan && this.alone == alone && this.faultless == faultless
      ensures this.state == state && this.running == running && reached == [state] && foreign == 0 && swaps == []
    {
      this.plan, this.alone, this.faultless, this.state, this.running := plan, alone, faultless, state, running;
      reached, foreign, swaps := [state], 0, [];
    }

    /** One atomic filesystem step. */
    method Become(next: State)
      modifies this`state, this`reached
      ensures state == next && reached == old(reached) + [next]
    {
      state := next;
      reached := reached + [next];
    }

    /** Something outside may fail. */
    method Works() returns (ok: bool)
      ensures faultless ==> ok
    {
      ok := *;
      ok := ok || faultless;
    }

    /** Another process, if there is one, writes or removes the configuration. */
    method Interfere()
      modifies this`state, this`foreign
      ensures alone ==> foreign == old(foreign)
      ensures foreign >= old(foreign)
      ensures foreign == old(foreign) ==> state == old(state)
      ensures state == old(state).(config := state.config)
    {
      var writes: bool, config: Option<File> := *, *;
      if writes && !alone {
        state := state.(config := config);
        foreign := foreign + 1;
      }
    }

    /** The loop of `read`: blocks of an open file up to its end, or one byte beyond the limit. */
    method ReadBlocks(content: Bytes) returns (ok: bool, raw: Bytes)
      ensures raw <= content
      ensures ok ==> raw == content || |raw| > MAXIMUM
      ensures ok && |content| <= MAXIMUM ==> raw == content
      ensures faultless ==> ok
    {
      ok, raw := true, [];
      while |raw| <= MAXIMUM
        invariant ok && raw <= content && |raw| <= MAXIMUM + 1
        decreases MAXIMUM + 1 - |raw|
      {
        ok := Works();
        if !ok {
          return;
        }
        var limit := if MAXIMUM + 1 - |raw| < BLOCK then MAXIMUM + 1 - |raw| else BLOCK;
        var n: nat :| n <= limit && |raw| + n <= |content| && (n == 0 ==> |raw| == |content|);
        if n == 0 {
          return;
        }
        raw := content[..|raw| + n];
      }
    }

    /** `read`: a regular file of the owner and mode asked for, of a readable size,
        read to its end, whatever blocks it comes in. */
    method Read(file: Option<File>, meta: Meta) returns (r: Option<Bytes>)
      ensures r.Some? ==> file == Some(File(r.value, meta)) && 0 < |r.value| <= 1048576
      ensures r.None? && faultless ==> file.None? || file.value.meta != meta || !(0 < |file.value.raw| <= 1048576)
    {
      var ok := Works();
      if !ok || file.None? || file.value.meta != meta || !Sized(file.value.raw) {
        return None;
      }
      var size := |file.value.raw|;
      var raw;
      ok, raw := ReadBlocks(file.value.raw);
      r := if ok && |raw| == size then Some(raw) else None;
    }

    /** `write`: exclusive creation, the bytes in any number of parts, owner, mode, readback. */
    method Write(name: Name, raw: Bytes, meta: Meta) returns (ok: bool)
      requires meta != Halfway
      modifies this`state, this`reached
      ensures ok ==> name !in old(state.files) && state == With(old(state), name, File(raw, meta))
      ensures state == old(state) || Written(old(state), state, name, raw, meta)
      ensures Logged(old(reached), old(state), name, raw, meta)
      ensures faultless && name !in old(state.files) && Sized(raw) ==> ok
    {
      if name in state.files {
        return false;
      }
      ghost var s0 := state;
      ok := Fill(name, raw, meta);
      if !ok {
        return;
      }
      if meta == Service {
        Extend(name, File(raw, Halfway), raw, meta, s0, old(reached));
        ok := Works();
        if !ok {
          return;
        }
        Extend(name, File(raw, Service), raw, meta, s0, old(reached));
      }
      ok := Works(); // the sync
      if ok {
        var r := Read(Lookup(state, name), meta);
        ok := r == Some(raw);
      }
    }

    /** Creation and the write loop of `write`. */
    method Fill(name: Name, raw: Bytes, meta: Meta) returns (ok: bool)
      modifies this`state, this`reached
      ensures Written(old(state), state, name, raw, meta)
      ensures ok ==> state == With(old(state), name, File(raw, Private))
      ensures Logged(old(reached), old(state), name, raw, meta)
      ensures faultless ==> ok
    {
      ghost var s0 := state;
      Extend(name, File([], Private), raw, meta, s0, old(reached));
      var done := 0;
      while done < |raw|
        invariant 0 <= done <= |raw|
        invariant state == With(s0, name, File(raw[..done], Private)) && Part(File(raw[..done], Private), raw, meta)
        invariant Logged(old(reached), s0, name, raw, meta)
      {
        ok := Works();
        var count: nat :| count <= |raw| - done && (ok ==> count > 0);
        if count == 0 {
          return false;
        }
        done := done + count;
        Extend(name, File(raw[..done], Private), raw, meta, s0, old(reached));
      }
      assert raw[..done] == raw;
      ok := Works();
    }

    /** One atomic step of `write`. */
    method Extend(name: Name, f: File, raw: Bytes, meta: Meta, ghost s0: State, ghost log: seq<State>)
      requires state == s0 || Written(s0, state, name, raw, meta)
      requires Part(f, raw, meta) && Logged(log, s0, name, raw, meta)
      modifies this`state, this`reached
      ensures state == With(s0, name, f) && Written(s0, state, name, raw, meta)
      ensures Logged(log, s0, name, raw, meta)
    {
      Become(With(state, name, f));
      assert state == With(s0, name, f);
    }

    /** Every state since `log` is inside this `write`. */
    ghost predicate Logged(log: seq<State>, s0: State, name: Name, raw: Bytes, meta: Meta)
      reads this
    {
      && log <= reached
      && forall i | |log| <= i < |reached| :: Written(s0, reached[i], name, raw, meta)
    }

    // ----- the configuration and the service ---------------------------------

    /** `read` of the configuration, which another process may replace meanwhile:
        the fingerprints before and after must agree. */
    method ReadConfig() returns (r: Option<Bytes>)
      modifies this`state, this`foreign
      ensures foreign >= old(foreign) && (alone ==> foreign == old(foreign))
      ensures foreign == old(foreign) ==> state == old(state)
      ensures state == old(state).(config := state.config)
      ensures r.Some? ==> Live(state, r.value)
      ensures r.None? && faultless && alone ==> forall raw | Sized(raw) :: !Live(state, raw)
    {
      Interfere();
      var found, before := state.config, foreign;
      r := Read(found, Service);
      Interfere();
      if foreign != before {
        r := None;
      }
    }

    /** `os.replace` of a finished file over the configuration, last read at `readAt`. */
    method ReplaceConfig(name: Name, ghost readAt: nat)
      requires name in state.files && readAt == foreign
      modifies this`state, this`reached, this`foreign, this`swaps
      ensures foreign >= old(foreign) && (alone ==> foreign == old(foreign))
      ensures |swaps| == |old(swaps)| + 1 && old(swaps) <= swaps
      ensures Replaced(swaps[|swaps| - 1], old(state.config))
      ensures state == State(Some(old(state.files[name])), old(state.files) - {name}, old(state.backup))
      ensures reached == old(reached) + [state]
    {
      Interfere();
      swaps := swaps + [Swap(state.config, readAt, foreign)];
      Become(State(Some(state.files[name]), state.files - {name}, state.backup));
    }

    method Restart() returns (ok: bool)
      modifies this`state, this`foreign, this`running
      ensures foreign >= old(foreign) && (alone ==> foreign == old(foreign))
      ensures foreign == old(foreign) ==> state == old(state)
      ensures state == old(state).(config := state.config)
      ensures ok ==> state.config.Some? && running == Some(state.config.value.raw)
      ensures faultless && state.config.Some? ==> ok
    {
      Interfere();
      ok := Works();
      ok := ok && state.config.Some?;
      var down: bool := *;
      if ok {
        running := Some(state.config.value.raw);
      } else if down {
        running := None;
      }
    }

    /** `ready`: the service is up and stable. */
    method Ready() returns (ok: bool)
      ensures ok ==> running.Some?
      ensures faultless && running.Some? ==> ok
    {
      ok := Works();
      ok := ok && running.Some?;
    }

    /** `stop_after_recovery_failure`. */
    method StopAfterRecoveryFailure() returns (r: Report)
      modifies this`running
      ensures r == Stopped ==> running == None
      ensures r == Stopped || r == StopUnconfirmed
      ensures faultless ==> r == Stopped
    {
      var did := Works();
      if did {
        running := None;
      }
      var confirmed := Works();
      return if did && confirmed then Stopped else StopUnconfirmed;
    }

    // ----- recovery -----------------------------------------------------------

    /** Nobody interferes, and every state since `log` is sound. */
    ghost predicate Kept(log: seq<State>, before: Bytes, after: Bytes)
      reads this
    {
      alone ==>
        && log <= reached
        && Sound(plan, before, after, state)
        && forall i | |log| <= i < |reached| :: Sound(plan, before, after, reached[i])
    }

    /** The backups are in order now, and were in every state since `log`. */
    ghost predicate StaysBacked(log: seq<State>, before: Bytes, after: Bytes)
      reads this
    {
      && log <= reached && Backed(plan, before, after, state)
      && forall i | |log| <= i < |reached| :: Backed(plan, before, after, reached[i])
    }

    /** Every configuration replaced since `log` had been read as `expected`, or
        a foreign write came between that reading and the rename. */
    ghost predicate NothingUnknownReplaced(log: seq<Swap>, expected: Bytes)
      reads this
    {
      && log <= swaps
      && forall i | |log| <= i < |swaps| :: Replaced(swaps[i], Some(File(expected, Service)))
    }

    /** The restore copy: one that is there must be complete, otherwise it is made. */
    method HaveRestoreCopy(raw: Bytes, ghost after: Bytes) returns (ok: bool)
      requires Reviewed(plan, raw, after)
      requires Marker in state.files && Kept(reached, raw, after)
      modifies this`state, this`reached
      ensures Backed(plan, raw, after, old(state)) ==> StaysBacked(old(reached), raw, after)
      ensures Kept(old(reached), raw, after) && Marker in state.files
      ensures ok ==> Has(state, RestoreCopy, raw, Service)
      ensures state.config == old(state.config)
      ensures faultless ==> (ok <==> RestoreCopy !in old(state.files) || Has(old(state), RestoreCopy, raw, Service))
    {
      if RestoreCopy in state.files {
        var copy := Read(Lookup(state, RestoreCopy), Service);
        return copy == Some(raw);
      }
      ghost var s0 := state;
      ok := Write(RestoreCopy, raw, Service);
      if alone {
        WritingRestoreIsSound(plan, raw, after, s0);
      }
    }

    /** `recover` with a published marker, up to the rename. */
    method PutBack(raw: Bytes, target: Bytes) returns (ok: bool)
      requires Reviewed(plan, raw, target)
      requires Marker in state.files && Kept(reached, raw, target)
      modifies this`state, this`reached, this`foreign, this`swaps
      ensures Backed(plan, raw, target, old(state)) ==> StaysBacked(old(reached), raw, target)
      ensures Kept(old(reached), raw, target) && foreign >= old(foreign)
      ensures NothingUnknownReplaced(old(swaps), target)
      ensures alone ==> (ok ==> Live(state, raw)) && Marker in state.files
      ensures alone && faultless ==> (ok <==> Restorable(old(state), raw))
    {
      ok := false;
      var current := ReadConfig();
      if current.None? || current.value !in [raw, target] {
        return;
      }
      if current.value == raw {
        return true;
      }
      ok := HaveRestoreCopy(raw, target);
      if !ok {
        return;
      }
      ok := Works(); // the native verifier
      if !ok {
        return;
      }
      var again := ReadConfig();
      if again != Some(target) {
        return false;
      }
      ReplaceConfig(RestoreCopy, foreign);
      ok := Works(); // the sync
    }

    /** `recover`. Alone, it ends with the old configuration live and says so
        truly; without faults it succeeds exactly when the restore copy permits. */
    method Recover(ghost before: Bytes, ghost after: Bytes) returns (r: Report)
      requires Injective(plan) && Reviewed(plan, before, after)
      requires Kept(reached, before, after)
      modifies this`state, this`reached, this`foreign, this`swaps, this`running
      ensures Backed(plan, before, after, old(state)) ==> StaysBacked(old(reached), before, after)
      ensures Kept(old(reached), before, after) && foreign >= old(foreign)
      ensures NothingUnknownReplaced(old(swaps), after)
      ensures r == Recovered || r == Unchanged || r == Refused
      ensures alone && r == Recovered ==> Live(state, before) && running == Some(before) && Marker in old(state.files)
      ensures alone && r == Unchanged ==> Live(state, before) && state == old(state) && running.Some? && Marker !in state.files
      ensures alone && faultless && old(state.backup) ==>
        (r != Refused <==> if Marker in old(state.files) then Restorable(old(state), before) else old(running).Some?)
    {
      var ok := Works(); // the backup directory's owner and mode
      if !ok || !state.backup {
        return Refused;
      }
      if Marker !in state.files {
        r := RecoverUnmarked(before, after);
        return;
      }
      var o := Read(Lookup(state, BeforeCopy), Private);
      if o.None? || plan.sha(o.value) != plan.oldHash {
        return Refused;
      }
      assert o.value == before;
      var n := Target(plan, o.value);
      var a := Read(Lookup(state, AfterCopy), Private);
      var m := Read(Lookup(state, Marker), Private);
      if n.None? || a != n || m != Some(MarkerText(plan, n.value)) {
        return Refused;
      }
      ok := PutBackAndRestart(o.value, n.value);
      r := if ok then Recovered else Refused;
    }

    /** The end of `recover`. */
    method PutBackAndRestart(before: Bytes, after: Bytes) returns (ok: bool)
      requires Reviewed(plan, before, after)
      requires Marker in state.files && Kept(reached, before, after)
      modifies this`state, this`reached, this`foreign, this`swaps, this`running
      ensures Backed(plan, before, after, old(state)) ==> StaysBacked(old(reached), before, after)
      ensures Kept(old(reached), before, after) && foreign >= old(foreign)
      ensures NothingUnknownReplaced(old(swaps), after)
      ensures alone && ok ==> Live(state, before) && running == Some(before)
      ensures alone && faultless ==> (ok <==> Restorable(old(state), before))
    {
      ok := PutBack(before, after);
      if ok {
        ok := Restart();
      }
      if ok {
        ok := Ready();
      }
    }

    /** Without a marker no cutover was started. */
    method RecoverUnmarked(ghost before: Bytes, ghost after: Bytes) returns (r: Report)
      requires Injective(plan) && Reviewed(plan, before, after)
      requires Marker !in state.files && Kept(reached, before, after)
      modifies this`state, this`foreign
      ensures alone ==> state == old(state)
      ensures state == old(state).(config := state.config)
      ensures foreign >= old(foreign) && (r == Unchanged || r == Refused)
      ensures r == Unchanged ==> Live(state, before) && running.Some?
      ensures alone && faultless ==> (r == Unchanged <==> running.Some?)
    {
      var current := ReadConfig();
      if current.None? || Target(plan, current.value).None? {
        return Refused;
      }
      var ok := Ready();
      r := if ok then Unchanged else Refused;
    }

    /** `main --recover`. */
    method RecoverOrStop(ghost before: Bytes, ghost after: Bytes) returns (r: Report)
      requires Injective(plan) && Reviewed(plan, before, after)
      requires Kept(reached, before, after)
      modifies this`state, this`reached, this`foreign, this`swaps, this`running
      ensures Backed(plan, before, after, old(state)) ==> StaysBacked(old(reached), before, after)
      ensures Kept(old(reached), before, after)
      ensures NothingUnknownReplaced(old(swaps), after)
      ensures r != Refused && r != Installed
      ensures alone && r == Recovered ==> Live(state, before) && running == Some(before)
      ensures alone && r == Unchanged ==> Live(state, before) && running.Some?
      ensures r == Stopped ==> running == None
      ensures alone && faultless && old(state.backup) && Marker in old(state.files) ==>
        r == if Restorable(old(state), before) then Recovered else Stopped
    {
      r := Recover(before, after);
      if r == Refused {
        r := StopAfterRecoveryFailure();
      }
    }

    // ----- the transition -----------------------------------------------------

    /** `preflight`: reads only. */
    method Preflight() returns (r: Option<(Bytes, Bytes)>)
      modifies this`state, this`foreign
      ensures foreign >= old(foreign) && (foreign == old(foreign) ==> state == old(state))
      ensures alone ==> foreign == old(foreign)
      ensures r.Some? ==>
        && Live(state, r.value.0) && Target(plan, r.value.0) == Some(r.value.1)
        && !state.backup && Candidate !in state.files && running.Some?
      ensures state == old(state).(config := state.config)
      ensures r.None? && faultless && alone ==> !Launchable(plan, state, running)
    {
      var loaded := ReadConfig();
      if loaded.None? || Target(plan, loaded.value).None? || state.backup || Candidate in state.files || running.None? {
        return None;
      }
      var ok := Works(); // the inspection, the verifier, the services
      return if ok then Some((loaded.value, Target(plan, loaded.value).value)) else None;
    }

    /** The backups and then the marker, by one rename. */
    method Prepare(before: Bytes, after: Bytes) returns (ok: bool)
      requires Reviewed(plan, before, after) && Fresh(state)
      requires Kept(reached, before, after)
      modifies this`state, this`reached
      ensures StaysBacked(old(reached), before, after)
      ensures Kept(old(reached), before, after)
      ensures state.config == old(state.config) && Candidate !in state.files
      ensures ok ==> Marker in state.files && RestoreCopy !in state.files
      ensures !ok && alone ==> Live(state, before)
      ensures faultless ==> ok
    {
      Become(state.(backup := true));
      ok := Works();
      if !ok { return; }
      ok := WriteBackups(before, after);
      if !ok { return; }
      Become(state.(files := (state.files - {MarkerDraft})[Marker := state.files[MarkerDraft]]));
      ok := Works();
    }

    /** Everything the marker will stand for. */
    method WriteBackups(before: Bytes, after: Bytes) returns (ok: bool)
      requires Reviewed(plan, before, after) && Fresh(state) && state.backup
      requires Kept(reached, before, after)
      modifies this`state, this`reached
      ensures StaysBacked(old(reached), before, after) && Kept(old(reached), before, after)
      ensures state.config == old(state.config) && state.backup
      ensures Marker !in state.files && RestoreCopy !in state.files && Candidate !in state.files
      ensures ok ==> state.files == map[BeforeCopy := File(before, Private), AfterCopy := File(after, Private),
                                        MarkerDraft := File(MarkerText(plan, after), Private)]
      ensures faultless ==> ok
    {
      ok := WriteUnmarked(BeforeCopy, before, before, after);
      if !ok { return; }
      ok := WriteUnmarked(AfterCopy, after, before, after);
      if !ok { return; }
      ok := WriteUnmarked(MarkerDraft, MarkerText(plan, after), before, after);
    }

    /** One of the writes before the marker. */
    method WriteUnmarked(name: Name, raw: Bytes, before: Bytes, after: Bytes) returns (ok: bool)
      requires name == BeforeCopy || name == AfterCopy || name == MarkerDraft
      requires name !in state.files && Marker !in state.files && RestoreCopy !in state.files && Sized(raw)
      requires Kept(reached, before, after)
      modifies this`state, this`reached
      ensures Backed(plan, before, after, old(state)) ==> StaysBacked(old(reached), before, after)
      ensures Kept(old(reached), before, after)
      ensures state.config == old(state.config) && state.backup == old(state.backup)
      ensures state.files.Keys <= old(state.files.Keys) + {name}
      ensures ok ==> state == With(old(state), name, File(raw, Private))
      ensures faultless ==> ok
    {
      ok := Write(name, raw, Private);
    }

    method WriteCandidate(before: Bytes, after: Bytes) returns (ok: bool)
      requires Marker in state.files && Candidate !in state.files && Sized(after) && Kept(reached, before, after)
      modifies this`state, this`reached
      ensures Backed(plan, before, after, old(state)) ==> StaysBacked(old(reached), before, after)
      ensures Kept(old(reached), before, after)
      ensures Marker in state.files && state.config == old(state.config)
      ensures ok ==> Has(state, Candidate, after, Service)
      ensures faultless ==> ok
    {
      ok := Write(Candidate, after, Service);
    }

    /** The guarded part of `main`; `changed` may stay unset when interrupted right after the rename. */
    method CutOver(before: Bytes, after: Bytes) returns (ok: bool, changed: bool)
      requires Reviewed(plan, before, after)
      requires Marker in state.files && Candidate !in state.files && Kept(reached, before, after)
      modifies this`state, this`reached, this`foreign, this`swaps, this`running
      ensures Backed(plan, before, after, old(state)) ==> StaysBacked(old(reached), before, after)
      ensures Kept(old(reached), before, after) && foreign >= old(foreign)
      ensures NothingUnknownReplaced(old(swaps), before)
      ensures Marker in state.files
      ensures ok ==> Live(state, after) && (alone ==> running == Some(after))
      ensures changed && alone ==> Live(state, after)
      ensures alone && faultless && Live(old(state), before) ==> ok
    {
      changed := false;
      ok := WriteCandidate(before, after);
      if !ok { return; }
      ok := Works(); // the native verifier
      if !ok { return; }
      var current := ReadConfig();
      if current != Some(before) {
        return false, false;
      }
      ReplaceConfig(Candidate, foreign);
      ok := Works();
      if !ok { return; }
      changed := true;
      ok := Launch(after);
    }

    /** The service on the new configuration. */
    method Launch(after: Bytes) returns (ok: bool)
      requires Sized(after)
      modifies this`state, this`foreign, this`running
      ensures foreign >= old(foreign) && state == old(state).(config := state.config)
      ensures alone ==> state == old(state)
      ensures ok ==> Live(state, after) && (alone ==> running == Some(after))
      ensures alone && faultless && Live(old(state), after) ==> ok
    {
      ok := Restart();
      if !ok { return; }
      ok := Ready();
      if !ok { return; }
      var installed := ReadConfig();
      var others := Works();
      ok := installed == Some(after) && others;
    }

    /** The handler of `main`: the bytes actually found decide, as well as the flag. */
    method Settle(before: Bytes, changed: bool, ghost after: Bytes) returns (r: Report)
      requires Injective(plan) && Reviewed(plan, before, after)
      requires Kept(reached, before, after)
      requires alone && changed ==> Live(state, after)
      modifies this`state, this`reached, this`foreign, this`swaps, this`running
      ensures Backed(plan, before, after, old(state)) ==> StaysBacked(old(reached), before, after)
      ensures Kept(old(reached), before, after)
      ensures NothingUnknownReplaced(old(swaps), after)
      ensures Outcome(r, before)
      ensures r != Installed && r != Refused
      ensures alone && faultless && old(state.backup) && Marker in old(state.files) ==>
        r == if !changed && Live(old(state), before) then Unchanged
          else if Restorable(old(state), before) then Recovered else Stopped
    {
      var current := ReadConfig();
      if current.None? {
        r := StopAfterRecoveryFailure();
      } else if changed || current.value != before {
        r := RecoverOrStop(before, after);
      } else {
        r := Unchanged;
      }
    }

    /** What each report means when nobody interferes. */
    ghost predicate Outcome(r: Report, before: Bytes)
      reads this
    {
      && (alone && (r == Recovered || r == Unchanged) ==> Live(state, before))
      && (alone && r == Recovered ==> running == Some(before))
      && (r == Stopped ==> running == None)
    }

    /** `main`: installed, or put back, or stopped; a failure before the guarded
        part leaves the configuration alone. */
    method Transition(ghost before: Bytes, ghost after: Bytes) returns (r: Report, ghost begun: bool)
      requires Injective(plan) && Reviewed(plan, before, after)
      requires !state.backup ==> state.files.Keys <= {Candidate}
      modifies this`state, this`reached, this`foreign, this`swaps, this`running
      ensures begun ==> Kept(old(reached), before, after) && StaysBacked(old(reached), before, after)
      ensures !begun ==>
        && r == Refused && reached == old(reached) && swaps == old(swaps) && running == old(running)
        && state == old(state).(config := state.config) && (alone ==> state == old(state))
      ensures old(swaps) <= swaps
      ensures forall i | |old(swaps)| <= i < |swaps| ::
        Replaced(swaps[i], Some(File(before, Service))) || Replaced(swaps[i], Some(File(after, Service)))
      ensures alone && r == Installed ==> Live(state, after) && running == Some(after)
      ensures Outcome(r, before)
      ensures alone && r == Refused ==> state.config == old(state.config) && running == old(running)
      ensures alone && faultless ==> (r == Installed <==> Launchable(plan, old(state), old(running)))
      ensures var config := old(state.config);
        var startable := config.Some? && config.value.meta == Service && 0 < |config.value.raw| <= 1048576
          && plan.sha(config.value.raw) == plan.oldHash && plan.change(config.value.raw).Some?
          && !old(state.backup) && Candidate !in old(state.files) && old(running).Some?;
        alone && faultless ==> (r == Installed <==> startable)
      ensures alone && r == Installed ==>
        old(state.config) == Some(File(before, Service)) && plan.change(before) == Some(after)
        && state.config == Some(File(after, Service))
    {
      var found := Preflight();
      if found.None? {
        return Refused, false;
      }
      assert found.value == (before, after) && state.files == map[];
      begun := true;
      var ok := Prepare(found.value.0, found.value.1);
      if !ok {
        return Refused, begun;
      }
      var changed;
      ok, changed := CutOver(found.value.0, found.value.1);
      if ok {
        return Installed, begun;
      }
      r := Settle(found.value.0, changed, after);
    }
  }

  /** What lets the preflight through, apart from the other services. */
  predicate Launchable(p: Plan, s: State, running: Option<Bytes>) {
    && s.config.Some? && s.config.value.meta == Service && Sized(s.config.value.raw)
    && Target(p, s.config.value.raw).Some? && !s.backup && Candidate !in s.files && running.Some?
  }

  /** No trace of an earlier transition. */
  predicate Fresh(s: State) {
    s.files == map[]
  }

  function Lookup(s: State, name: Name): Option<File> {
    if name in s.files then Some(s.files[name]) else None
  }

  predicate Replaced(w: Swap, expected: Option<File>) {
    w.found == expected || w.readAt < w.renamedAt
  }

  lemma WritingRestoreIsSound(p: Plan, before: Bytes, after: Bytes, s0: State)
    requires Sound(p, before, after, s0) && Marker in s0.files
    ensures forall s | Written(s0, s, RestoreCopy, before, Service) :: Sound(p, before, after, s)
  {
  }
}
