/** The two stores of a tenant as values: the metadata sidecar, the durable vector index, and what
    a tenant directory holds between processes. */
module TenantState {
  import opened Keyed
  import Text

  type Byte = Text.Byte

  /** A vector short enough that its length fits the 32-bit casts of the original. */
  type Vec = v: seq<real> | |v| < 0x1_0000_0000 witness []

  datatype TenantId = TenantId(bytes: seq<Byte>)

  /** Everything a sidecar entry says about a record besides its id. */
  datatype Meta = Meta(shareable: bool, tags: seq<string>, payload: seq<Byte>)

  type Entry = Row<nat, Meta>

  datatype Sidecar = Sidecar(tenantId: TenantId, dim: nat, records: seq<Entry>)

  /** The durable vector index, seen as a map. */
  datatype Index = Index(dim: nat, vectors: map<nat, Vec>)

  /** A tenant directory. `tierKind` and `current` are the first and the last file an index
      creation writes; `index` is what opening the index finds, if it can be opened. */
  datatype Disk = Disk(meta: Option<Sidecar>, tierKind: bool, current: bool, index: Option<Index>) {
    predicate IndexExists() { tierKind || current }
  }

  datatype TenantError = Io | PermissionDenied | AlreadyExists | NotFound | DimMismatch(onDisk: nat, requested: nat)

  datatype Result<+T> = Ok(value: T) | Err(error: TenantError)

  function EmptySidecar(id: TenantId, dim: nat): Sidecar {
    Sidecar(id, dim, [])
  }

  // ---------------------------------------------------------------- opening

  function OpenIndex(disk: Disk, dim: nat): Result<Index> {
    if disk.index.None? then Err(Io)
    else if disk.index.value.dim != dim then Err(DimMismatch(disk.index.value.dim, dim))
    else Ok(disk.index.value)
  }

  /** The sidecar an `open` starts with, or its error. */
  function OpenSidecar(disk: Disk, id: TenantId, dim: nat): Result<Sidecar> {
    if disk.meta.Some? then
      if disk.meta.value.dim != dim then Err(DimMismatch(disk.meta.value.dim, dim))
      else match OpenIndex(disk, dim)
           case Err(e) => Err(e)
           case Ok(_) => Ok(disk.meta.value)
    else if disk.IndexExists() then
      match OpenIndex(disk, dim)
      case Err(e) => Err(e)
      case Ok(_) => Ok(EmptySidecar(id, dim))
    else Ok(EmptySidecar(id, dim))
  }

  /** The directory an `open` leaves behind. */
  function OpenDisk(disk: Disk, id: TenantId, dim: nat): Disk {
    if OpenSidecar(disk, id, dim).Err? || disk.meta.Some? then disk
    else if disk.IndexExists() then disk.(meta := Some(EmptySidecar(id, dim)))
    else Disk(Some(EmptySidecar(id, dim)), true, true, Some(Index(dim, map[])))
  }

  /** How far the library got in creating an index: its first file is a marker, its last one makes
      the index complete. */
  datatype Creation = NotBegun | Begun | Ready

  /** What can go wrong outside an `open`: the directory cannot be made, the sidecar there cannot be
      read and decoded, the index creation stops early, the sidecar cannot be written. */
  datatype OpenFaults = OpenFaults(dirOk: bool, readOk: bool, creation: Creation, writeOk: bool)

  /** The outcome of an `open` under these faults; it needs each only on the branch that uses it. */
  function OpenResult(disk: Disk, id: TenantId, dim: nat, faults: OpenFaults): Result<Sidecar> {
    if !faults.dirOk || (disk.meta.Some? && !faults.readOk) then Err(Io)
    else if OpenSidecar(disk, id, dim).Err? || disk.meta.Some? then OpenSidecar(disk, id, dim)
    else if !disk.IndexExists() && !faults.creation.Ready? then Err(Io)
    else if !faults.writeOk then Err(Io)
    else OpenSidecar(disk, id, dim)
  }

  /** The directory it leaves: a creation cut short leaves its marker, and a sidecar that could not
      be written leaves an index without one. */
  function OpenLeaves(disk: Disk, id: TenantId, dim: nat, faults: OpenFaults): Disk {
    if OpenResult(disk, id, dim, faults).Ok? then OpenDisk(disk, id, dim)
    else if !faults.dirOk || disk.meta.Some? || OpenSidecar(disk, id, dim).Err? || disk.IndexExists() then disk
    else match faults.creation
         case NotBegun => disk
         case Begun => disk.(tierKind := true)
         case Ready => Disk(None, true, true, Some(Index(dim, map[])))
  }

  /** Whatever goes wrong outside is answered as an I/O error, and each fault only matters to the
      branch that meets it: a missing directory to all, an unreadable sidecar where there is one, a
      creation where there is nothing, a write where there is no sidecar. */
  lemma FaultsAreIo(disk: Disk, id: TenantId, dim: nat, faults: OpenFaults)
    ensures OpenResult(disk, id, dim, faults) == OpenSidecar(disk, id, dim) || OpenResult(disk, id, dim, faults) == Err(Io)
    ensures OpenResult(disk, id, dim, faults).Ok? <==>
              && OpenSidecar(disk, id, dim).Ok? && faults.dirOk
              && (disk.meta.Some? ==> faults.readOk)
              && (disk.meta.None? ==> faults.writeOk)
              && (disk.meta.None? && !disk.tierKind && !disk.current ==> faults.creation.Ready?)
  {
  }

  // ---------------------------------------------------------------- an open tenant

  /** The state behind a tenant's lock: the index on disk and the sidecar in memory. */
  datatype Core = Core(sidecar: Sidecar, index: Index)

  function Put(c: Core, id: nat, v: Vec, m: Meta): Core {
    Core(c.sidecar.(records := Upsert(c.sidecar.records, Row(id, m))),
         c.index.(vectors := c.index.vectors[id := v]))
  }

  function Drop(c: Core, id: nat): Core {
    c.(sidecar := c.sidecar.(records := Remove(c.sidecar.records, id)))
  }

  /** Every record has one entry and a vector of the tenant's dimension. */
  predicate Paired(records: seq<Entry>, index: Index) {
    && Unique(records)
    && (forall i :: 0 <= i < |records| ==> records[i].key in index.vectors)
    && (forall id :: id in index.vectors ==> |index.vectors[id]| == index.dim)
  }

  predicate WellFormed(c: Core) {
    c.sidecar.dim == c.index.dim && Paired(c.sidecar.records, c.index)
  }

  lemma HasIsKey(records: seq<Entry>, index: Index)
    ensures (forall i :: 0 <= i < |records| ==> records[i].key in index.vectors)
            <==> forall id :: Has(records, id) ==> id in index.vectors
  {
    if forall id :: Has(records, id) ==> id in index.vectors {
      forall i | 0 <= i < |records| ensures records[i].key in index.vectors {
        assert Has(records, records[i].key);
      }
    }
  }

  /** An insert keeps the two stores paired and adds one id to the index. */
  lemma WritesKeepPairing(c: Core, id: nat, v: Vec, m: Meta)
    requires WellFormed(c) && |v| == c.index.dim
    ensures WellFormed(Put(c, id, v, m))
    ensures Put(c, id, v, m).index.vectors.Keys == c.index.vectors.Keys + {id}
  {
    HasIsKey(c.sidecar.records, c.index);
    var p := Put(c, id, v, m);
    forall k ensures Has(p.sidecar.records, k) <==> k == id || Has(c.sidecar.records, k) {
      UpsertIsUpdate(c.sidecar.records, Row(id, m), k);
    }
    UpsertIsUpdate(c.sidecar.records, Row(id, m), id);
    HasIsKey(p.sidecar.records, p.index);
  }

  /** A delete keeps them paired and leaves the vector behind. */
  lemma DropKeepsPairing(c: Core, id: nat)
    requires WellFormed(c)
    ensures WellFormed(Drop(c, id)) && Drop(c, id).index == c.index
    ensures !Has(Drop(c, id).sidecar.records, id)
  {
    HasIsKey(c.sidecar.records, c.index);
    var d := Drop(c, id);
    forall k ensures Has(d.sidecar.records, k) <==> k != id && Has(c.sidecar.records, k) {
      RemoveIsDelete(c.sidecar.records, id, k);
    }
    RemoveIsDelete(c.sidecar.records, id, id);
    HasIsKey(d.sidecar.records, d.index);
  }

  /** The pairs `iter_vectors` yields: each record with its vector, skipping what cannot be read. */
  function Vectors(records: seq<Entry>, index: Index, readable: nat -> bool): seq<(nat, Vec)> {
    if records == [] then []
    else
      var id := records[0].key;
      (if readable(id) && id in index.vectors then [(id, index.vectors[id])] else [])
      + Vectors(records[1..], index, readable)
  }

  /** A pair is yielded exactly when its id has a record and its vector is the stored one and can be
      read. */
  lemma {:induction false} VectorsMembers(records: seq<Entry>, index: Index, readable: nat -> bool, id: nat, v: Vec)
    ensures (id, v) in Vectors(records, index, readable)
            <==> Has(records, id) && readable(id) && id in index.vectors && index.vectors[id] == v
  {
    if records == [] {
    } else {
      HasCons(records, id);
      VectorsMembers(records[1..], index, readable, id, v);
    }
  }

  /** When nothing fails to read, a paired tenant yields one vector per record, in record order,
      each the stored one and each of the tenant's dimension. */
  lemma {:induction false} VectorsComplete(records: seq<Entry>, index: Index, readable: nat -> bool)
    requires Paired(records, index) && forall id :: readable(id)
    ensures var vs := Vectors(records, index, readable);
            && |vs| == |records|
            && forall i :: 0 <= i < |vs| ==>
                 vs[i].0 == records[i].key && vs[i].1 == index.vectors[vs[i].0] && |vs[i].1| == index.dim
  {
    if records == [] {
    } else {
      UniqueCons(records);
      VectorsComplete(records[1..], index, readable);
    }
  }
}
