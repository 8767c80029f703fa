/** The disk-backed tenant. What the original leaves to the index library and the file system
    enters as parameters: whether an index insert or a sidecar write succeeds, which vectors can be
    read, and what a similarity search answers. */
module Tenant {
  import opened Keyed
  import opened Events
  import opened TenantState
  import opened Numbers
  import opened Query

  class Directory {
    var disk: Disk

    constructor (disk: Disk)
      ensures this.disk == disk
    {
      this.disk := disk;
    }
  }

  class Tenant {
    const dir: Directory
    const tenantId: TenantId
    const embeddingDim: nat
    const readOnly: bool
    const bus: Broadcaster
    var sidecar: Sidecar

    predicate Valid()
      reads this, dir, bus
    {
      && bus.Valid()
      && sidecar.dim == embeddingDim
      && dir.disk.index.Some? && dir.disk.index.value.dim == embeddingDim
    }

    function State(): Core
      reads this, dir
      requires dir.disk.index.Some?
    {
      Core(sidecar, dir.disk.index.value)
    }

    constructor (dir: Directory, tenantId: TenantId, sidecar: Sidecar, readOnly: bool)
      requires dir.disk.index.Some? && dir.disk.index.value.dim == sidecar.dim
      ensures Valid() && fresh(bus) && bus.subscribers == []
      ensures this.dir == dir && this.tenantId == tenantId && this.embeddingDim == sidecar.dim
      ensures this.sidecar == sidecar && this.readOnly == readOnly
    {
      this.dir, this.tenantId, this.embeddingDim := dir, tenantId, sidecar.dim;
      this.sidecar, this.readOnly := sidecar, readOnly;
      bus := new Broadcaster();
    }

    /** Open or create. The handle keeps the caller's id even when the loaded sidecar records another
        one. A failure leaves the directory as it was, except that a creation cut short leaves its
        marker and an unwritable sidecar leaves the new index without one. */
    static method Open(dir: Directory, id: TenantId, dim: nat, faults: OpenFaults) returns (r: Result<Tenant>)
      modifies dir
      ensures dir.disk == OpenLeaves(old(dir.disk), id, dim, faults)
      ensures r.Ok? <==> OpenResult(old(dir.disk), id, dim, faults).Ok?
      ensures r.Err? ==> r.error == OpenResult(old(dir.disk), id, dim, faults).error
      ensures r.Ok? ==>
                && fresh(r.value) && fresh(r.value.bus) && r.value.Valid() && r.value.dir == dir
                && !r.value.readOnly && r.value.tenantId == id && r.value.embeddingDim == dim
                && r.value.sidecar == OpenResult(old(dir.disk), id, dim, faults).value
                && r.value.bus.subscribers == []
                && (r.value.tenantId == r.value.sidecar.tenantId
                    <==> old(dir.disk).meta.None? || old(dir.disk).meta.value.tenantId == id)
    {
      var sidecar: Sidecar;
      if !faults.dirOk {
        return Err(Io);
      }
      if dir.disk.meta.Some? {
        if !faults.readOk {
          return Err(Io);
        }
        sidecar := dir.disk.meta.value;
        if sidecar.dim != dim {
          return Err(DimMismatch(sidecar.dim, dim));
        }
        if dir.disk.index.None? {
          return Err(Io);
        }
        if dir.disk.index.value.dim != dim {
          return Err(DimMismatch(dir.disk.index.value.dim, dim));
        }
      } else if dir.disk.IndexExists() {
        if dir.disk.index.None? {
          return Err(Io);
        }
        if dir.disk.index.value.dim != dim {
          return Err(DimMismatch(dir.disk.index.value.dim, dim));
        }
        sidecar := EmptySidecar(id, dim);
        if !faults.writeOk {
          return Err(Io);
        }
        dir.disk := dir.disk.(meta := Some(sidecar));
      } else {
        if faults.creation.NotBegun? {
          return Err(Io);
        }
        dir.disk := dir.disk.(tierKind := true);
        if faults.creation.Begun? {
          return Err(Io);
        }
        dir.disk := dir.disk.(current := true, index := Some(Index(dim, map[])));
        sidecar := EmptySidecar(id, dim);
        if !faults.writeOk {
          return Err(Io);
        }
        dir.disk := dir.disk.(meta := Some(sidecar));
      }
      var t := new Tenant(dir, id, sidecar, false);
      r := Ok(t);
    }

    /** Read-only open: never writes, needs a sidecar that can be read and decoded, and takes id and
        dimension from it. */
    static method OpenReadonly(dir: Directory, readOk: bool) returns (r: Result<Tenant>)
      ensures r.Ok? <==> dir.disk.meta.Some? && readOk && OpenIndex(dir.disk, dir.disk.meta.value.dim).Ok?
      ensures r.Err? ==> r.error == if dir.disk.meta.None? then NotFound
                                    else if !readOk then Io
                                    else OpenIndex(dir.disk, dir.disk.meta.value.dim).error
      ensures r.Ok? ==>
                && fresh(r.value) && fresh(r.value.bus) && r.value.Valid() && r.value.dir == dir && r.value.readOnly
                && r.value.tenantId == dir.disk.meta.value.tenantId
                && r.value.sidecar == dir.disk.meta.value && r.value.bus.subscribers == []
    {
      if dir.disk.meta.None? {
        return Err(NotFound);
      }
      if !readOk {
        return Err(Io);
      }
      var sidecar := dir.disk.meta.value;
      if dir.disk.index.None? {
        return Err(Io);
      }
      if dir.disk.index.value.dim != sidecar.dim {
        return Err(DimMismatch(dir.disk.index.value.dim, sidecar.dim));
      }
      var t := new Tenant(dir, sidecar.tenantId, sidecar, true);
      r := Ok(t);
    }

    /** Write both stores, then broadcast. A refused or failed insert changes nothing and says
        nothing. */
    method Insert(id: nat, embedding: Vec, meta: Meta, indexOk: bool) returns (r: Result<()>)
      requires Valid()
      modifies this`sidecar, dir, bus`subscribers, (set c: Channel | c in bus.subscribers)`queue
      ensures Valid()
      ensures r == if readOnly then Err(PermissionDenied)
                   else if |embedding| != embeddingDim then Err(DimMismatch(embeddingDim, |embedding|))
                   else if !indexOk then Err(Io)
                   else Ok(())
      ensures r.Ok? ==> State() == Put(old(State()), id, embedding, meta)
                        && bus.Sent(old(bus.subscribers), RecordInserted(id, meta.shareable))
      ensures r.Err? ==> State() == old(State()) && bus.Silent(old(bus.subscribers))
      ensures dir.disk == old(dir.disk).(index := Some(State().index))
    {
      if readOnly {
        return Err(PermissionDenied);
      }
      if |embedding| != embeddingDim {
        return Err(DimMismatch(embeddingDim, |embedding|));
      }
      if !indexOk {
        return Err(Io);
      }
      var index := dir.disk.index.value;
      dir.disk := dir.disk.(index := Some(index.(vectors := index.vectors[id := embedding])));
      var pos := Position(sidecar.records, id);
      if pos < |sidecar.records| {
        sidecar := sidecar.(records := sidecar.records[pos := Row(id, meta)]);
      } else {
        sidecar := sidecar.(records := sidecar.records + [Row(id, meta)]);
      }
      bus.Emit(RecordInserted(id, meta.shareable));
      r := Ok(());
    }

    /** Forget the record; the vector stays in the index. The event goes out exactly when the
        record was present. */
    method Delete(id: nat) returns (r: Result<bool>)
      requires Valid()
      modifies this`sidecar, bus`subscribers, (set c: Channel | c in bus.subscribers)`queue
      ensures Valid()
      ensures r == if readOnly then Err(PermissionDenied) else Ok(Has(old(sidecar.records), id))
      ensures State() == if readOnly then old(State()) else Drop(old(State()), id)
      ensures if r == Ok(true) then bus.Sent(old(bus.subscribers), RecordDeleted(id)) else bus.Silent(old(bus.subscribers))
    {
      if readOnly {
        return Err(PermissionDenied);
      }
      var before := |sidecar.records|;
      sidecar := sidecar.(records := Remove(sidecar.records, id));
      var removed := |sidecar.records| != before;
      if removed {
        bus.Emit(RecordDeleted(id));
      }
      r := Ok(removed);
    }

    /** Persist the sidecar: afterwards the directory records exactly the entries in memory. */
    method Flush(writeOk: bool) returns (r: Result<()>)
      requires Valid()
      modifies dir
      ensures Valid() && State() == old(State())
      ensures r == if readOnly || writeOk then Ok(()) else Err(Io)
      ensures dir.disk == if !readOnly && writeOk then old(dir.disk).(meta := Some(sidecar)) else old(dir.disk)
    {
      if readOnly {
        return Ok(());
      }
      if !writeOk {
        return Err(Io);
      }
      dir.disk := dir.disk.(meta := Some(sidecar));
      r := Ok(());
    }

    /** A new subscriber: it joins the list behind the present ones with nothing queued. */
    method Subscribe(filter: EventFilter) returns (s: EventStream)
      requires Valid()
      modifies bus`subscribers
      ensures Valid()
      ensures fresh(s) && fresh(s.rx) && s.filter == filter
      ensures bus.subscribers == old(bus.subscribers) + [s.rx]
      ensures s.rx.queue == [] && s.rx.receiverAlive && s.rx.senderAlive
    {
      s := bus.Subscribe(filter);
    }

    method IterVectors(readable: nat -> bool) returns (out: seq<(nat, Vec)>)
      requires Valid()
      ensures out == Vectors(sidecar.records, State().index, readable)
    {
      out := [];
      var records, vectors := sidecar.records, dir.disk.index.value.vectors;
      for i := 0 to |records|
        invariant out + Vectors(records[i..], State().index, readable)
                  == Vectors(records, State().index, readable)
      {
        var id := records[i].key;
        assert records[i..][1..] == records[i + 1..];
        ghost var rest := Vectors(records[i + 1..], State().index, readable);
        if readable(id) && id in vectors {
          assert out + ([(id, vectors[id])] + rest) == (out + [(id, vectors[id])]) + rest;
          out := out + [(id, vectors[id])];
        } else {
          assert [] + rest == rest;
        }
      }
    }

    /** Filtered search: ask the index for four times the limit, at least 64, and filter what it
        answers. `search` is what the index answers to a request for so many; `None` when it fails. */
    method QueryFiltered(embedding: Vec, topK: nat, accept: Filter, search: nat -> Option<seq<Scored>>,
                         readable: nat -> bool)
      returns (r: Result<seq<Hit>>)
      requires Valid()
      requires forall n :: search(n).Some? ==> ValidSearch(search(n).value, State().index, n)
      ensures var raw := search(if topK < 16 then 64 else 4 * topK);
              r == if |embedding| != embeddingDim then Err(DimMismatch(embeddingDim, |embedding|))
                   else if raw.None? then Err(Io)
                   else Ok(ToHits(Answer(raw.value, sidecar.records, accept, topK),
                                  sidecar.records, State().index, readable))
    {
      if |embedding| != embeddingDim {
        return Err(DimMismatch(embeddingDim, |embedding|));
      }
      var raw := search(Oversample(topK));
      if raw.None? {
        return Err(Io);
      }
      var candidates, rows, index := raw.value, sidecar.records, dir.disk.index.value;
      var out: seq<Hit> := [];
      ghost var kept: seq<Scored> := [];
      for i := 0 to |candidates|
        invariant kept == Kept(candidates[..i], rows, accept)
        invariant out == ToHits(kept, rows, index, readable)
        invariant |out| == 0 || |out| < topK
      {
        var c := candidates[i];
        KeptNext(candidates, i, rows, accept);
        var found := Lookup(rows, c.id);
        if found.None? {
          continue;
        }
        if !accept(c.id, found.value.shareable, found.value.tags) {
          continue;
        }
        var vector := if readable(c.id) && c.id in index.vectors then Some(index.vectors[c.id]) else None;
        var hit := Hit(c.id, c.similarity, found.value.payload, vector);
        ToHitsEnd(kept, c, rows, index, readable);
        assert hit == ToHit(c, rows, index, readable);
        out := out + [hit];
        kept := kept + [c];
        if |out| >= topK {
          assert candidates == candidates[..i + 1] + candidates[i + 1..];
          KeptAppend(candidates[..i + 1], candidates[i + 1..], rows, accept);
          assert |kept| == Max(topK, 1);
          assert kept == Answer(candidates, rows, accept, topK);
          return Ok(out);
        }
      }
      assert candidates[..|candidates|] == candidates;
      assert kept == Answer(candidates, rows, accept, topK);
      r := Ok(out);
    }
  }
}
