/** Whole runs of a tenant directory: open, insert, delete, flush and crash, with a crash possible
    between any two writes. The index is durable at once, the sidecar only when it is written; one
    sidecar write is one atomic step. */
module Recovery {
  import opened Keyed
  import opened TenantState

  /** What the process is doing. `Creating`: the first marker is written, the index is not ready.
      `Unrecorded`: the index is ready, the sidecar is not written. `Inserting`: the vector is
      durable, the sidecar entry is not yet in memory. */
  datatype Proc =
    | Down
    | Creating(id: TenantId, dim: nat)
    | Unrecorded(id: TenantId, dim: nat)
    | Live(sidecar: Sidecar)
    | Inserting(sidecar: Sidecar, row: Entry)

  datatype Sys = Sys(disk: Disk, proc: Proc)

  datatype Step =
    | Open(id: TenantId, dim: nat)
    | FinishIndex
    | WriteFresh
    | PutVector(key: nat, v: Vec, m: Meta)
    | PutEntry
    | Delete(key: nat)
    | Flush
    | Crash

  const INIT := Sys(Disk(None, false, false, None), Down)

  function Next(s: Sys, l: Step): Option<Sys> {
    match (l, s.proc)
    case (Open(id, dim), Down) =>
      if OpenSidecar(s.disk, id, dim).Err? then Some(s)
      else if s.disk.meta.Some? then Some(s.(proc := Live(s.disk.meta.value)))
      else if s.disk.IndexExists() then Some(s.(proc := Unrecorded(id, dim)))
      else Some(Sys(s.disk.(tierKind := true), Creating(id, dim)))
    case (FinishIndex, Creating(id, dim)) =>
      Some(Sys(s.disk.(current := true, index := Some(Index(dim, map[]))), Unrecorded(id, dim)))
    case (WriteFresh, Unrecorded(id, dim)) =>
      Some(Sys(s.disk.(meta := Some(EmptySidecar(id, dim))), Live(EmptySidecar(id, dim))))
    case (PutVector(key, v, m), Live(sc)) =>
      if |v| == sc.dim && s.disk.index.Some?
      then Some(Sys(s.disk.(index := Some(s.disk.index.value.(vectors := s.disk.index.value.vectors[key := v]))),
                    Inserting(sc, Row(key, m))))
      else None
    case (PutEntry, Inserting(sc, row)) =>
      Some(s.(proc := Live(sc.(records := Upsert(sc.records, row)))))
    case (Delete(key), Live(sc)) =>
      Some(s.(proc := Live(sc.(records := Remove(sc.records, key)))))
    case (Flush, Live(sc)) => Some(s.(disk := s.disk.(meta := Some(sc))))
    case (Crash, _) => Some(s.(proc := Down))
    case _ => None
  }

  /** The state after a run from an empty directory; `None` if some step was not possible. */
  function Run(ls: seq<Step>): Option<Sys> {
    if ls == [] then Some(INIT)
    else match Run(ls[..|ls| - 1])
         case None => None
         case Some(s) => Next(s, ls[|ls| - 1])
  }

  lemma RunEnd(ls: seq<Step>, l: Step)
    ensures Run(ls + [l]) == match Run(ls) case None => None case Some(s) => Next(s, l)
  {
    assert (ls + [l])[..|ls|] == ls;
  }

  // ---------------------------------------------------------------- the steps and the operations

  /** An uninterrupted `open` is the open of the tenant contract, whichever branch it takes. */
  lemma OpenIsItsSteps(disk: Disk, id: TenantId, dim: nat)
    requires OpenSidecar(disk, id, dim).Ok?
    ensures var done := Sys(OpenDisk(disk, id, dim), Live(OpenSidecar(disk, id, dim).value));
            var s1 := Next(Sys(disk, Down), Open(id, dim));
            && s1.Some?
            && match s1.value.proc
               case Live(_) => s1 == Some(done)
               case Unrecorded(_, _) => Next(s1.value, WriteFresh) == Some(done)
               case _ => Next(s1.value, FinishIndex).Some?
                         && Next(Next(s1.value, FinishIndex).value, WriteFresh) == Some(done)
  {
  }

  /** A failed `open` leaves a directory the runs of this model know: that of a crash after as many
      of its steps as it got through. So everything proved of runs holds after it too. */
  lemma FailedOpenIsACrash(ls: seq<Step>, id: TenantId, dim: nat, faults: OpenFaults) returns (more: seq<Step>)
    requires Run(ls).Some? && Run(ls).value.proc.Down?
    requires OpenResult(Run(ls).value.disk, id, dim, faults).Err?
    ensures Run(ls + more) == Some(Sys(OpenLeaves(Run(ls).value.disk, id, dim, faults), Down))
  {
    var disk := Run(ls).value.disk;
    if OpenLeaves(disk, id, dim, faults) == disk {
      more := [];
      assert ls + more == ls;
    } else if faults.creation.Begun? {
      more := [Open(id, dim)] + [Crash];
      CrashWhileCreating(ls, id, dim);
    } else {
      more := [Open(id, dim)] + [FinishIndex] + [Crash];
      CrashWhileUnrecorded(ls, id, dim);
    }
  }

  lemma CrashWhileCreating(ls: seq<Step>, id: TenantId, dim: nat)
    requires Run(ls).Some? && Run(ls).value.proc.Down?
    requires Run(ls).value.disk.meta.None? && !Run(ls).value.disk.IndexExists()
    ensures Run(ls + [Open(id, dim)]) == Some(Sys(Run(ls).value.disk.(tierKind := true), Creating(id, dim)))
    ensures Run(ls + ([Open(id, dim)] + [Crash])) == Some(Sys(Run(ls).value.disk.(tierKind := true), Down))
  {
    RunEnd(ls, Open(id, dim));
    RunEnd(ls + [Open(id, dim)], Crash);
    assert ls + ([Open(id, dim)] + [Crash]) == ls + [Open(id, dim)] + [Crash];
  }

  lemma CrashWhileUnrecorded(ls: seq<Step>, id: TenantId, dim: nat)
    requires Run(ls).Some? && Run(ls).value.proc.Down?
    requires Run(ls).value.disk.meta.None? && !Run(ls).value.disk.IndexExists()
    ensures Run(ls + ([Open(id, dim)] + [FinishIndex] + [Crash]))
            == Some(Sys(Disk(None, true, true, Some(Index(dim, map[]))), Down))
  {
    CrashWhileCreating(ls, id, dim);
    RunEnd(ls + [Open(id, dim)], FinishIndex);
    RunEnd(ls + [Open(id, dim)] + [FinishIndex], Crash);
    assert ls + ([Open(id, dim)] + [FinishIndex] + [Crash]) == ls + [Open(id, dim)] + [FinishIndex] + [Crash];
  }

  /** An uninterrupted insert is the tenant's `Put`, and `Delete` is its `Drop`. */
  lemma WritesAreTheirSteps(s: Sys, key: nat, v: Vec, m: Meta)
    requires s.proc.Live? && s.disk.index.Some? && |v| == s.proc.sidecar.dim
    ensures var core := Core(s.proc.sidecar, s.disk.index.value);
            var put := Put(core, key, v, m);
            && Next(s, PutVector(key, v, m)).Some?
            && Next(Next(s, PutVector(key, v, m)).value, PutEntry)
               == Some(Sys(s.disk.(index := Some(put.index)), Live(put.sidecar)))
            && Next(s, Delete(key)) == Some(s.(proc := Live(Drop(core, key).sidecar)))
  {
  }

  // ---------------------------------------------------------------- invariant

  predicate Stored(sc: Sidecar, disk: Disk) {
    disk.index.Some? && sc.dim == disk.index.value.dim && Paired(sc.records, disk.index.value)
  }

  /** The running sidecar names the same tenant as the one on disk. */
  predicate SameTenant(sc: Sidecar, disk: Disk) {
    disk.meta.Some? && sc.tenantId == disk.meta.value.tenantId && sc.dim == disk.meta.value.dim
  }

  predicate Inv(s: Sys) {
    && (s.disk.index.Some? <==> s.disk.current)
    && (s.disk.current ==> s.disk.tierKind)
    && (s.disk.index.Some? ==> Paired([], s.disk.index.value))
    && (s.disk.meta.Some? ==> Stored(s.disk.meta.value, s.disk))
    && match s.proc
       case Down => true
       case Creating(_, _) => s.disk.meta.None? && s.disk.index.None? && s.disk.tierKind
       case Unrecorded(_, dim) => s.disk.meta.None? && s.disk.index.Some? && s.disk.index.value.dim == dim
       case Live(sc) => Stored(sc, s.disk) && SameTenant(sc, s.disk)
       case Inserting(sc, row) =>
         Stored(sc, s.disk) && SameTenant(sc, s.disk) && row.key in s.disk.index.value.vectors
  }

  lemma UpsertPaired(records: seq<Entry>, index: Index, row: Entry)
    requires Paired(records, index) && row.key in index.vectors
    ensures Paired(Upsert(records, row), index)
  {
    HasIsKey(records, index);
    forall k ensures Has(Upsert(records, row), k) <==> k == row.key || Has(records, k) {
      UpsertIsUpdate(records, row, k);
    }
    UpsertIsUpdate(records, row, row.key);
    HasIsKey(Upsert(records, row), index);
  }

  lemma RemovePaired(records: seq<Entry>, index: Index, key: nat)
    requires Paired(records, index)
    ensures Paired(Remove(records, key), index)
  {
    HasIsKey(records, index);
    forall k ensures Has(Remove(records, key), k) <==> k != key && Has(records, k) {
      RemoveIsDelete(records, key, k);
    }
    RemoveIsDelete(records, key, key);
    HasIsKey(Remove(records, key), index);
  }

  lemma InvStep(s: Sys, l: Step)
    requires Inv(s) && Next(s, l).Some?
    ensures Inv(Next(s, l).value)
  {
    match l
    case PutEntry => UpsertPaired(s.proc.sidecar.records, s.disk.index.value, s.proc.row);
    case Delete(key) => RemovePaired(s.proc.sidecar.records, s.disk.index.value, key);
    case _ =>
  }

  /** In every reachable state both sidecars have unique ids, all of them in the index, and agree
      with it on the dimension; a sidecar on disk implies an index. */
  lemma {:induction false} Reachable(ls: seq<Step>)
    requires Run(ls).Some?
    ensures Inv(Run(ls).value)
  {
    if ls == [] {
    } else {
      Reachable(ls[..|ls| - 1]);
      InvStep(Run(ls[..|ls| - 1]).value, ls[|ls| - 1]);
    }
  }

  // ---------------------------------------------------------------- open never destroys

  /** In every reachable directory, `open` fails only for a wrong dimension, which it names with the
      stored one, or for the remains of an index whose creation was cut short; it never finds a
      sidecar without an index. It starts from the sidecar there, or from an empty one. */
  lemma OpenSucceedsExactlyWhen(ls: seq<Step>, id: TenantId, dim: nat)
    requires Run(ls).Some? && Run(ls).value.proc.Down?
    ensures var disk := Run(ls).value.disk;
            && (OpenSidecar(disk, id, dim).Ok? <==>
                  !disk.IndexExists() || (disk.index.Some? && disk.index.value.dim == dim))
            && (OpenSidecar(disk, id, dim) == Err(Io) <==> disk.IndexExists() && disk.index.None?)
            && (disk.index.Some? && disk.index.value.dim != dim ==>
                  OpenSidecar(disk, id, dim) == Err(DimMismatch(disk.index.value.dim, dim)))
            && (OpenSidecar(disk, id, dim).Ok? ==>
                  && OpenSidecar(disk, id, dim).value.dim == dim
                  && (disk.meta.Some? ==> OpenSidecar(disk, id, dim).value == disk.meta.value)
                  && (disk.meta.None? ==> OpenSidecar(disk, id, dim).value == Sidecar(id, dim, [])))
  {
    Reachable(ls);
  }

  /** An index is created only where there is neither an index nor a sidecar. */
  lemma CreateNeverOverData(ls: seq<Step>)
    requires Run(ls).Some? && Next(Run(ls).value, FinishIndex).Some?
    ensures Run(ls).value.disk.index.None? && Run(ls).value.disk.meta.None?
  {
    Reachable(ls);
  }

  /** Nothing durable is lost later: the index keeps its dimension and every id, and a sidecar,
      once written, stays and keeps its tenant id and dimension. */
  lemma {:induction false} DurableStateGrows(ls: seq<Step>, more: seq<Step>)
    requires Run(ls + more).Some?
    ensures Run(ls).Some?
    ensures var d, e := Run(ls).value.disk, Run(ls + more).value.disk;
            && (d.index.Some? ==> e.index.Some? && e.index.value.dim == d.index.value.dim
                                  && d.index.value.vectors.Keys <= e.index.value.vectors.Keys)
            && (d.meta.Some? ==> e.meta.Some? && e.meta.value.tenantId == d.meta.value.tenantId
                                 && e.meta.value.dim == d.meta.value.dim)
  {
    if more == [] {
      assert ls + more == ls;
    } else {
      var init := more[..|more| - 1];
      assert (ls + more)[..|ls + more| - 1] == ls + init;
      DurableStateGrows(ls, init);
      Reachable(ls + init);
    }
  }

  // ---------------------------------------------------------------- what a reopened tenant shows

  /** The last vector inserted under `key`. */
  function LatestVector(ls: seq<Step>, key: nat): Option<Vec> {
    if ls == [] then None
    else match ls[|ls| - 1]
         case PutVector(k, v, _) => if k == key then Some(v) else LatestVector(ls[..|ls| - 1], key)
         case _ => LatestVector(ls[..|ls| - 1], key)
  }

  function LatestRow(ls: seq<Step>): Option<Entry> {
    if ls == [] then None
    else match ls[|ls| - 1]
         case PutVector(k, _, m) => Some(Row(k, m))
         case _ => LatestRow(ls[..|ls| - 1])
  }

  /** The entries written by the last sidecar write, read off the run alone. */
  function Saved(ls: seq<Step>): Option<seq<Entry>>
    decreases |ls|
  {
    if ls == [] then None
    else match ls[|ls| - 1]
         case WriteFresh => Some([])
         case Flush => Some(Volatile(ls[..|ls| - 1]))
         case _ => Saved(ls[..|ls| - 1])
  }

  /** The entries a running tenant has in memory: those of the last save, plus what was inserted
      and deleted since it was opened. */
  function Volatile(ls: seq<Step>): seq<Entry>
    decreases |ls|
  {
    if ls == [] then []
    else
      var before := ls[..|ls| - 1];
      match ls[|ls| - 1]
      case WriteFresh => []
      case Open(_, _) => if Saved(before).Some? then Saved(before).value else []
      case PutEntry => if LatestRow(before).Some? then Upsert(Volatile(before), LatestRow(before).value) else Volatile(before)
      case Delete(key) => Remove(Volatile(before), key)
      case _ => Volatile(before)
  }

  function VectorAt(s: Sys, key: nat): Option<Vec> {
    if s.disk.index.Some? && key in s.disk.index.value.vectors then Some(s.disk.index.value.vectors[key]) else None
  }

  /** The entries on disk and in memory are those the run's history says. */
  predicate EntriesRecorded(ls: seq<Step>, s: Sys) {
    && Saved(ls) == (if s.disk.meta.Some? then Some(s.disk.meta.value.records) else None)
    && (s.proc.Live? ==> s.proc.sidecar.records == Volatile(ls))
    && (s.proc.Inserting? ==> s.proc.sidecar.records == Volatile(ls) && LatestRow(ls) == Some(s.proc.row))
  }

  lemma {:induction false} EntriesAreHistory(ls: seq<Step>)
    requires Run(ls).Some?
    ensures EntriesRecorded(ls, Run(ls).value)
  {
    if ls == [] {
    } else {
      EntriesAreHistory(ls[..|ls| - 1]);
      Reachable(ls[..|ls| - 1]);
    }
  }

  lemma {:induction false} VectorsAreHistory(ls: seq<Step>, key: nat)
    requires Run(ls).Some?
    ensures LatestVector(ls, key) == VectorAt(Run(ls).value, key)
  {
    if ls == [] {
    } else {
      VectorsAreHistory(ls[..|ls| - 1], key);
      Reachable(ls[..|ls| - 1]);
    }
  }

  /** The state agrees with what the run's history says. */
  ghost predicate Recorded(ls: seq<Step>, s: Sys) {
    EntriesRecorded(ls, s) && forall key: nat :: LatestVector(ls, key) == VectorAt(s, key)
  }

  lemma HistoryIsState(ls: seq<Step>)
    requires Run(ls).Some?
    ensures Recorded(ls, Run(ls).value)
  {
    EntriesAreHistory(ls);
    forall key: nat ensures LatestVector(ls, key) == VectorAt(Run(ls).value, key) {
      VectorsAreHistory(ls, key);
    }
  }

  /** A reopened tenant shows exactly the entries of the last sidecar write, each paired with the
      vector of that id's latest insert, and `iter_vectors` yields one vector per record, all of
      the tenant's dimension. */
  lemma ReopenShowsLastSave(ls: seq<Step>, id: TenantId, dim: nat, readable: nat -> bool)
    requires Run(ls).Some? && Run(ls).value.proc.Down?
    requires Next(Run(ls).value, Open(id, dim)).value.proc.Live?
    requires forall k :: readable(k)
    ensures var s := Next(Run(ls).value, Open(id, dim)).value;
            var sc := s.proc.sidecar;
            && Saved(ls) == Some(sc.records)
            && s.disk.index.Some?
            && (var vs := Vectors(sc.records, s.disk.index.value, readable);
                && |vs| == |sc.records|
                && forall i :: 0 <= i < |vs| ==>
                     && vs[i].0 == sc.records[i].key
                     && Some(vs[i].1) == LatestVector(ls, vs[i].0)
                     && |vs[i].1| == sc.dim == dim)
  {
    Reachable(ls);
    HistoryIsState(ls);
    var s := Run(ls).value;
    VectorsComplete(s.disk.meta.value.records, s.disk.index.value, readable);
  }

  // ---------------------------------------------------------------- torn records

  /** The position in the run of the latest insert of `key`. */
  function LatestInsert(ls: seq<Step>, key: nat): Option<nat> {
    if ls == [] then None
    else
      var before, l := ls[..|ls| - 1], ls[|ls| - 1];
      if l.PutVector? && l.key == key then Some(|before|) else LatestInsert(before, key)
  }

  /** The position of the latest insert of all: the one a `PutEntry` completes. */
  function LastInsert(ls: seq<Step>): Option<nat> {
    if ls == [] then None
    else if ls[|ls| - 1].PutVector? then Some(|ls| - 1)
    else LastInsert(ls[..|ls| - 1])
  }

  predicate InsertAt(ls: seq<Step>, p: nat, key: nat) {
    p < |ls| && ls[p].PutVector? && ls[p].key == key
  }

  /** Which insert of `key` the sidecar on disk shows: an insert, and a delete, counts once it was
      in memory at a write. */
  function SavedFrom(ls: seq<Step>, key: nat): Option<nat>
    decreases |ls|
  {
    if ls == [] then None
    else
      var before := ls[..|ls| - 1];
      match ls[|ls| - 1]
      case WriteFresh => None
      case Flush => HeldFrom(before, key)
      case _ => SavedFrom(before, key)
  }

  /** Which insert of `key` the memory of the running process shows. */
  function HeldFrom(ls: seq<Step>, key: nat): Option<nat>
    decreases |ls|
  {
    if ls == [] then None
    else
      var before := ls[..|ls| - 1];
      match ls[|ls| - 1]
      case WriteFresh => None
      case Open(_, _) => SavedFrom(before, key)
      case PutEntry =>
        var p := LastInsert(before);
        if p.Some? && InsertAt(before, p.value, key) then p else HeldFrom(before, key)
      case Delete(k) => if k == key then None else HeldFrom(before, key)
      case _ => HeldFrom(before, key)
  }

  /** The latest insert of `key` has been written to the sidecar on disk. */
  predicate InsertSaved(ls: seq<Step>, key: nat)
    decreases |ls|
  {
    ls != [] &&
    var before := ls[..|ls| - 1];
    match ls[|ls| - 1]
    case PutVector(k, _, _) => k != key && InsertSaved(before, key)
    case Flush => InsertHeld(before, key)
    case _ => InsertSaved(before, key)
  }

  /** The latest insert of `key` is reflected in the memory of the running process. */
  predicate InsertHeld(ls: seq<Step>, key: nat)
    decreases |ls|
  {
    ls != [] &&
    var before := ls[..|ls| - 1];
    match ls[|ls| - 1]
    case PutVector(k, _, _) => k != key && InsertHeld(before, key)
    case PutEntry => (LatestRow(before).Some? && LatestRow(before).value.key == key) || InsertHeld(before, key)
    case Open(_, _) => InsertSaved(before, key)
    case _ => InsertHeld(before, key)
  }

  /** Positions and contents of the latest inserts agree, and the last insert of all is also the
      last of its own key. */
  lemma {:induction false} InsertsAreRead(ls: seq<Step>, key: nat)
    ensures match LastInsert(ls)
            case None => LatestRow(ls) == None
            case Some(p) => p < |ls| && ls[p].PutVector? && LatestRow(ls) == Some(Row(ls[p].key, ls[p].m))
                            && (ls[p].key == key ==> LatestInsert(ls, key) == Some(p))
    ensures match LatestInsert(ls, key)
            case None => LatestVector(ls, key) == None
            case Some(p) => InsertAt(ls, p, key) && LatestVector(ls, key) == Some(ls[p].v)
    ensures forall i: nat :: InsertAt(ls, i, key) ==> LatestInsert(ls, key).Some? && i <= LatestInsert(ls, key).value
  {
    if ls == [] {
    } else {
      var before := ls[..|ls| - 1];
      InsertsAreRead(before, key);
      forall i: nat | InsertAt(ls, i, key) ensures LatestInsert(ls, key).Some? && i <= LatestInsert(ls, key).value {
        assert i < |before| ==> InsertAt(before, i, key);
      }
    }
  }

  /** `shown` is the metadata of the insert at `p`, nothing when there is none. */
  predicate Shows(ls: seq<Step>, p: Option<nat>, key: nat, shown: Option<Meta>) {
    match p
    case None => shown == None
    case Some(p) => InsertAt(ls, p, key) && shown == Some(ls[p].m)
  }

  lemma ShowsLater(ls: seq<Step>, p: Option<nat>, key: nat, shown: Option<Meta>)
    requires ls != [] && Shows(ls[..|ls| - 1], p, key, shown)
    ensures Shows(ls, p, key, shown)
  {
  }

  function SavedMeta(ls: seq<Step>, key: nat): Option<Meta> {
    if Saved(ls).Some? then Lookup(Saved(ls).value, key) else None
  }

  lemma EntryIsShown(ls: seq<Step>, key: nat)
    requires ls != [] && ls[|ls| - 1] == PutEntry
    requires Shows(ls[..|ls| - 1], HeldFrom(ls[..|ls| - 1], key), key, Lookup(Volatile(ls[..|ls| - 1]), key))
    ensures Shows(ls, HeldFrom(ls, key), key, Lookup(Volatile(ls), key))
  {
    var before := ls[..|ls| - 1];
    InsertsAreRead(before, key);
    ShowsLater(ls, HeldFrom(before, key), key, Lookup(Volatile(before), key));
    if LatestRow(before).Some? {
      UpsertIsUpdate(Volatile(before), LatestRow(before).value, key);
    }
  }

  /** Memory and disk show, under each key, exactly the inserts the run says they do. */
  lemma {:induction false} ShownIsFrom(ls: seq<Step>, key: nat)
    ensures Shows(ls, HeldFrom(ls, key), key, Lookup(Volatile(ls), key))
    ensures Shows(ls, SavedFrom(ls, key), key, SavedMeta(ls, key))
  {
    if ls == [] {
    } else {
      var before := ls[..|ls| - 1];
      ShownIsFrom(before, key);
      ShowsLater(ls, HeldFrom(before, key), key, Lookup(Volatile(before), key));
      ShowsLater(ls, SavedFrom(before, key), key, SavedMeta(before, key));
      match ls[|ls| - 1]
      case PutEntry => EntryIsShown(ls, key);
      case Delete(k) => RemoveIsDelete(Volatile(before), k, key);
      case WriteFresh => assert Lookup<nat, Meta>([], key) == None;
      case _ =>
    }
  }

  /** The insert shown is the latest one exactly when that one has arrived. */
  lemma {:induction false} LatestIsShownExactlyWhen(ls: seq<Step>, key: nat)
    ensures HeldFrom(ls, key).Some? ==> (HeldFrom(ls, key) == LatestInsert(ls, key) <==> InsertHeld(ls, key))
    ensures SavedFrom(ls, key).Some? ==> (SavedFrom(ls, key) == LatestInsert(ls, key) <==> InsertSaved(ls, key))
  {
    if ls == [] {
    } else {
      var before := ls[..|ls| - 1];
      LatestIsShownExactlyWhen(before, key);
      ShownIsFrom(before, key);
      InsertsAreRead(before, key);
    }
  }

  /** No crash strictly between the positions `q` and `f`. */
  predicate Uncrashed(ls: seq<Step>, q: nat, f: nat)
    requires f <= |ls|
  {
    forall c :: q < c < f ==> ls[c] != Crash
  }

  /** After position `q` there is a flush, and no crash on the way to it. */
  predicate FlushFollows(ls: seq<Step>, q: nat) {
    exists f :: q < f < |ls| && ls[f] == Flush && Uncrashed(ls, q, f)
  }

  lemma FlushFollowsNext(ls: seq<Step>, q: nat)
    requires 0 < |ls| && q < |ls| - 1
    ensures var before, l := ls[..|ls| - 1], ls[|ls| - 1];
            && (FlushFollows(ls, q) <==>
                  FlushFollows(before, q) || (l == Flush && Uncrashed(before, q, |before|)))
            && (Uncrashed(ls, q, |ls|) <==> Uncrashed(before, q, |before|) && l != Crash)
  {
    var before, l := ls[..|ls| - 1], ls[|ls| - 1];
    if f :| q < f < |before| && before[f] == Flush && Uncrashed(before, q, f) {
      assert Uncrashed(ls, q, f);
    }
    if f :| q < f < |ls| && ls[f] == Flush && Uncrashed(ls, q, f) {
      assert f < |before| ==> Uncrashed(before, q, f);
    }
    if l == Flush && Uncrashed(before, q, |before|) {
      assert Uncrashed(ls, q, |before|);
    }
  }

  /** What a flush would save: the latest insert of `key` in memory, or already on disk. */
  predicate FlushWouldKeep(ls: seq<Step>, key: nat) {
    var q := LatestInsert(ls, key);
    q.Some? && (FlushFollows(ls, q.value) || (q.value < |ls| && Uncrashed(ls, q.value, |ls|)))
  }

  /** How memory stands to the flushes of the run, in each state the process can be in. */
  predicate FlushTold(ls: seq<Step>, key: nat, s: Sys) {
    var q := LatestInsert(ls, key);
    && (q.Some? ==> q.value < |ls| && s.disk.meta.Some?)
    && (InsertHeld(ls, key) ==> q.Some?)
    && (InsertSaved(ls, key) <==> q.Some? && FlushFollows(ls, q.value))
    && match s.proc
       case Down => q.Some? ==> !Uncrashed(ls, q.value, |ls|)
       case Live(_) => InsertHeld(ls, key) <==> FlushWouldKeep(ls, key)
       case Inserting(_, row) =>
         LatestRow(ls) == Some(row) &&
         if row.key == key then FlushWouldKeep(ls, key) else InsertHeld(ls, key) <==> FlushWouldKeep(ls, key)
       case _ => s.disk.meta.None?
  }

  lemma {:induction false} FlushesAreTold(ls: seq<Step>, key: nat)
    requires Run(ls).Some?
    ensures FlushTold(ls, key, Run(ls).value)
  {
    if ls == [] {
    } else {
      var before := ls[..|ls| - 1];
      FlushesAreTold(before, key);
      Reachable(before);
      if LatestInsert(before, key).Some? {
        FlushFollowsNext(ls, LatestInsert(before, key).value);
      }
    }
  }

  /** The latest insert of a key is saved exactly when a flush follows it that no crash precedes. */
  lemma InsertSavedExactlyWhen(ls: seq<Step>, key: nat)
    requires Run(ls).Some?
    ensures var q := LatestInsert(ls, key);
            InsertSaved(ls, key) <==>
              q.Some? && exists f :: q.value < f < |ls| && ls[f] == Flush
                                     && forall c :: q.value < c < f ==> ls[c] != Crash
  {
    FlushesAreTold(ls, key);
  }

  /** What a reopened tenant shows under a key, in every run. The record is there exactly when the
      last sidecar write held one; its metadata is that of one insert of the run and its vector that
      of the latest; and the two are one insert, so that the record is whole, exactly when the latest
      insert had reached the sidecar on disk: a flush follows it with no crash in between. Otherwise
      the metadata is that of an earlier insert. */
  lemma SavedRecordIsWhole(ls: seq<Step>, id: TenantId, dim: nat, key: nat)
    requires Run(ls).Some? && Run(ls).value.proc.Down?
    requires Next(Run(ls).value, Open(id, dim)).value.proc.Live?
    ensures var s := Next(Run(ls).value, Open(id, dim)).value;
            var shown, p, q := Lookup(s.proc.sidecar.records, key), SavedFrom(ls, key), LatestInsert(ls, key);
            && (shown.Some? <==> p.Some?)
            && (p.Some? ==>
                  && InsertAt(ls, p.value, key) && shown == Some(ls[p.value].m)
                  && q.Some? && InsertAt(ls, q.value, key) && p.value <= q.value
                  && s.disk.index.Some? && key in s.disk.index.value.vectors
                  && s.disk.index.value.vectors[key] == ls[q.value].v
                  && (p == q <==> InsertSaved(ls, key))
                  && (p == q <==> FlushFollows(ls, q.value)))
  {
    Reachable(ls);
    FlushesAreTold(ls, key);
    HistoryIsState(ls);
    ShownIsFrom(ls, key);
    InsertsAreRead(ls, key);
    LatestIsShownExactlyWhen(ls, key);
    var s := Run(ls).value;
    if Lookup(s.disk.meta.value.records, key).Some? {
      HasIsKey(s.disk.meta.value.records, s.disk.index.value);
      assert Has(s.disk.meta.value.records, key);
    }
  }

  /** An overwrite that no flush follows: after any run that leaves the process live and has a
      record of `key` on disk, inserting `key` again and crashing. */
  function Overwritten(ls: seq<Step>, key: nat, v: Vec, m: Meta): seq<Step> {
    ls + [PutVector(key, v, m)] + [PutEntry] + [Crash]
  }

  lemma EndsWith(ls: seq<Step>, l: Step, key: nat)
    ensures var all := ls + [l];
            && (l == Crash || l == PutEntry || l.PutVector? ==> SavedFrom(all, key) == SavedFrom(ls, key))
            && (l.PutVector? && l.key == key ==> LatestInsert(all, key) == Some(|ls|))
            && (l == Crash || l == PutEntry ==> LatestInsert(all, key) == LatestInsert(ls, key))
  {
    assert (ls + [l])[..|ls|] == ls;
  }

  lemma OverwrittenRun(ls: seq<Step>, key: nat, v: Vec, m: Meta)
    requires Run(ls).Some? && Run(ls).value.proc.Live? && |v| == Run(ls).value.proc.sidecar.dim
    requires Run(ls).value.disk.index.Some?
    ensures var s, all := Run(ls).value, Overwritten(ls, key, v, m);
            var index := s.disk.index.value;
            && Run(all) == Some(Sys(s.disk.(index := Some(index.(vectors := index.vectors[key := v]))), Down))
            && SavedFrom(all, key) == SavedFrom(ls, key) && LatestInsert(all, key) == Some(|ls|)
  {
    var a := ls + [PutVector(key, v, m)];
    var b := a + [PutEntry];
    RunEnd(ls, PutVector(key, v, m));
    RunEnd(a, PutEntry);
    RunEnd(b, Crash);
    EndsWith(ls, PutVector(key, v, m), key);
    EndsWith(a, PutEntry, key);
    EndsWith(b, Crash, key);
  }

  /** Every such overwrite leaves a torn record: reopened, it shows the new vector under the metadata
      of an earlier insert. */
  lemma UnsavedOverwriteIsTorn(ls: seq<Step>, key: nat, v: Vec, m: Meta)
    requires Run(ls).Some? && Run(ls).value.proc.Live? && |v| == Run(ls).value.proc.sidecar.dim
    requires SavedFrom(ls, key).Some?
    ensures var sc, all := Run(ls).value.proc.sidecar, Overwritten(ls, key, v, m);
            && Run(all).Some? && Run(all).value.proc.Down?
            && var s := Next(Run(all).value, Open(sc.tenantId, sc.dim)).value;
               && s.proc.Live? && s.disk.index.Some?
               && key in s.disk.index.value.vectors && s.disk.index.value.vectors[key] == v
               && SavedFrom(all, key) == SavedFrom(ls, key) && InsertAt(ls, SavedFrom(ls, key).value, key)
               && Lookup(s.proc.sidecar.records, key) == Some(ls[SavedFrom(ls, key).value].m)
               && LatestInsert(all, key) == Some(|ls|) && !InsertSaved(all, key)
  {
    Reachable(ls);
    OverwrittenRun(ls, key, v, m);
    ShownIsFrom(ls, key);
    var all, sc := Overwritten(ls, key, v, m), Run(ls).value.proc.sidecar;
    SavedRecordIsWhole(all, sc.tenantId, sc.dim, key);
    assert all[SavedFrom(ls, key).value] == ls[SavedFrom(ls, key).value];
  }

  lemma CreatedRun(id: TenantId, dim: nat)
    ensures Run([Open(id, dim)] + [FinishIndex] + [WriteFresh])
            == Some(Sys(Disk(Some(EmptySidecar(id, dim)), true, true, Some(Index(dim, map[]))),
                        Live(EmptySidecar(id, dim))))
  {
    CreatedFrom([], id, dim);
    assert [] + [Open(id, dim)] == [Open(id, dim)];
  }

  lemma RunStep(ls: seq<Step>, s: Sys, l: Step, t: Sys)
    requires Run(ls) == Some(s) && Next(s, l) == Some(t)
    ensures Run(ls + [l]) == Some(t)
  {
    RunEnd(ls, l);
  }

  lemma CreatedFrom(ls: seq<Step>, id: TenantId, dim: nat)
    requires Run(ls) == Some(INIT)
    ensures Run(ls + [Open(id, dim)] + [FinishIndex] + [WriteFresh])
            == Some(Sys(Disk(Some(EmptySidecar(id, dim)), true, true, Some(Index(dim, map[]))),
                        Live(EmptySidecar(id, dim))))
  {
    var creating := Sys(Disk(None, true, false, None), Creating(id, dim));
    var unrecorded := Sys(Disk(None, true, true, Some(Index(dim, map[]))), Unrecorded(id, dim));
    RunStep(ls, INIT, Open(id, dim), creating);
    RunStep(ls + [Open(id, dim)], creating, FinishIndex, unrecorded);
    RunStep(ls + [Open(id, dim)] + [FinishIndex], unrecorded, WriteFresh,
            Sys(unrecorded.disk.(meta := Some(EmptySidecar(id, dim))), Live(EmptySidecar(id, dim))));
  }

  /** After any run that leaves the process live, an insert followed by a flush is what the disk
      shows. */
  lemma FlushedInsertIsShown(ls: seq<Step>, key: nat, v: Vec, m: Meta)
    requires Run(ls).Some? && Run(ls).value.proc.Live? && |v| == Run(ls).value.proc.sidecar.dim
    ensures var all := ls + [PutVector(key, v, m)] + [PutEntry] + [Flush];
            && Run(all).Some? && Run(all).value.proc.Live?
            && Run(all).value.proc.sidecar.dim == Run(ls).value.proc.sidecar.dim
            && SavedFrom(all, key) == Some(|ls|)
  {
    InsertedRun(ls, key, v, m);
    InsertEnds(ls, key, v, m);
    FlushedEntry(ls + [PutVector(key, v, m)], |ls|, key);
  }

  lemma InsertedRun(ls: seq<Step>, key: nat, v: Vec, m: Meta)
    requires Run(ls).Some? && Run(ls).value.proc.Live? && |v| == Run(ls).value.proc.sidecar.dim
    ensures var b := Run(ls + [PutVector(key, v, m)] + [PutEntry] + [Flush]);
            b.Some? && b.value.proc.Live? && b.value.proc.sidecar.dim == Run(ls).value.proc.sidecar.dim
  {
    Reachable(ls);
    var s := Run(ls).value;
    var s1 := Next(s, PutVector(key, v, m)).value;
    var s2 := Next(s1, PutEntry).value;
    RunStep(ls, s, PutVector(key, v, m), s1);
    RunStep(ls + [PutVector(key, v, m)], s1, PutEntry, s2);
    RunStep(ls + [PutVector(key, v, m)] + [PutEntry], s2, Flush, s2.(disk := s2.disk.(meta := Some(s2.proc.sidecar))));
  }

  lemma InsertEnds(ls: seq<Step>, key: nat, v: Vec, m: Meta)
    ensures var a := ls + [PutVector(key, v, m)]; InsertAt(a, |ls|, key) && LastInsert(a) == Some(|ls|)
  {
  }

  lemma FlushedEntry(ls: seq<Step>, p: nat, key: nat)
    requires LastInsert(ls) == Some(p) && InsertAt(ls, p, key)
    ensures SavedFrom(ls + [PutEntry] + [Flush], key) == Some(p)
  {
    EntryEnds(ls, p, key);
    FlushEnds(ls + [PutEntry], key);
  }

  lemma EntryEnds(ls: seq<Step>, p: nat, key: nat)
    requires LastInsert(ls) == Some(p) && InsertAt(ls, p, key)
    ensures HeldFrom(ls + [PutEntry], key) == Some(p)
  {
    assert (ls + [PutEntry])[..|ls|] == ls;
  }

  lemma FlushEnds(ls: seq<Step>, key: nat)
    ensures SavedFrom(ls + [Flush], key) == HeldFrom(ls, key)
  {
    assert (ls + [Flush])[..|ls|] == ls;
  }

  /** Such runs exist: create, insert, flush. */
  lemma SavedOnce(id: TenantId, dim: nat, key: nat, v: Vec, m: Meta)
    requires |v| == dim
    ensures var ls := [Open(id, dim)] + [FinishIndex] + [WriteFresh] + [PutVector(key, v, m)] + [PutEntry] + [Flush];
            && Run(ls).Some? && Run(ls).value.proc.Live? && Run(ls).value.proc.sidecar.dim == dim
            && SavedFrom(ls, key) == Some(3)
  {
    CreatedRun(id, dim);
    FlushedInsertIsShown([Open(id, dim)] + [FinishIndex] + [WriteFresh], key, v, m);
  }
}
