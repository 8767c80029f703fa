/** Snapshot and restore of a tenant directory. The sidecar encoding and the index library are
    parameters: what is assumed of them is `Trusted`. */
module Restore {
  import opened Keyed
  import opened Snapshot
  import opened TenantState

  const META := "meta.json"
  const TIER_KIND := "tier.kind"
  const CURRENT := "CURRENT"

  datatype Library = Library(encode: Sidecar -> seq<Byte>, decode: seq<Byte> -> Option<Sidecar>,
                             openIndex: Listing -> Option<Index>)

  /** The encoding round-trips, and the index consists of regular files and directories other than
      the sidecar file, in whatever order they are listed. */
  ghost predicate Trusted(lib: Library) {
    && (forall s :: lib.decode(lib.encode(s)) == Some(s))
    && (forall es, es' :: SameTree(es, es') ==> lib.openIndex(es) == lib.openIndex(es'))
    && (forall es :: lib.openIndex(Plain(es)) == lib.openIndex(es))
    && (forall es, data :: lib.openIndex(Upsert(es, Row(META, File(data)))) == lib.openIndex(es))
  }

  /** How the file system lists a directory: any order, in nested directories too. */
  type Lister = Listing -> Listing

  ghost predicate Lists(list: Lister) {
    forall es :: Tidy(es) ==> SameTree(es, list(es))
  }

  function ReadMeta(es: Listing, lib: Library): Option<Sidecar> {
    var n := Lookup(es, META);
    if n.Some? && n.value.File? then lib.decode(n.value.data) else None
  }

  /** What a directory tree means as a tenant directory. */
  function DiskOf(es: Listing, lib: Library): (d: Disk)
    ensures d.tierKind <==> Has(es, "tier.kind")
    ensures d.current <==> Has(es, "CURRENT")
    ensures d.meta.Some? ==> exists data :: Lookup(es, "meta.json") == Some(File(data)) && lib.decode(data) == d.meta
  {
    Disk(ReadMeta(es, lib), Has(es, TIER_KIND), Has(es, CURRENT), lib.openIndex(es))
  }

  /** A sidecar can be written where there is nothing or a file. */
  predicate MetaWritable(es: Listing) {
    var n := Lookup(es, META);
    n.None? || n.value.File?
  }

  function Flushed(dir: Listing, sidecar: Sidecar, readOnly: bool, lib: Library): Listing {
    if readOnly then dir else Upsert(dir, Row(META, File(lib.encode(sidecar))))
  }

  function OrEmpty(dir: Option<Listing>): Listing {
    if dir.Some? then dir.value else []
  }

  // ---------------------------------------------------------------- operations

  /** Flush, then copy the whole directory into `dest`, which is created when missing. */
  method TakeSnapshot(dir: Listing, sidecar: Sidecar, readOnly: bool, dest: Option<Listing>, lib: Library,
                      list: Lister, writeOk: bool)
    returns (ok: bool, dir': Listing, dest': Listing, ghost at: nat)
    requires Tidy(dir) && Tidy(OrEmpty(dest)) && Lists(list)
    ensures var flushOk := readOnly || (writeOk && MetaWritable(dir));
            && dir' == (if flushOk then Flushed(dir, sidecar, readOnly, lib) else dir)
            && (ok <==> flushOk && Compatible(list(dir'), OrEmpty(dest)))
            && (!flushOk ==> dest' == OrEmpty(dest))
            && (flushOk && !ok ==> CopiedUpTo(list(dir'), OrEmpty(dest), dest', at))
    ensures ok ==> dest' == Overlay(list(dir'), OrEmpty(dest))
    ensures Tidy(dir') && Tidy(dest')
    ensures ok && !readOnly ==> Lookup(dir', "meta.json") == Some(File(lib.encode(sidecar)))
  {
    dir', dest', at := dir, OrEmpty(dest), 0;
    if !readOnly {
      var there := Lookup(dir, META);
      if !writeOk || (there.Some? && !there.value.File?) {
        return false, dir', dest', at;
      }
      FlushTidy(dir, sidecar, lib);
      dir' := Upsert(dir, Row(META, File(lib.encode(sidecar))));
    }
    ok, dest', at := CopyDirContents(list(dir'), dest');
  }

  lemma FlushTidy(dir: Listing, sidecar: Sidecar, lib: Library)
    requires Tidy(dir)
    ensures Tidy(Flushed(dir, sidecar, false, lib))
    ensures Lookup(Flushed(dir, sidecar, false, lib), META) == Some(File(lib.encode(sidecar)))
  {
    var row := Row(META, File(lib.encode(sidecar)));
    assert TidyEntry(row);
    PlaceTidy(row, dir);
    PlaceLookup(row, dir, META);
  }

  /** A tenant as a restore hands it out. */
  datatype Restored = Restored(tenantId: TenantId, sidecar: Sidecar, index: Index)

  /** Among the first `n` entries is a sidecar a copy takes along. */
  predicate HoldsMeta(src: Listing, n: nat)
    requires n <= |src|
  {
    exists i :: 0 <= i < n && src[i].key == META && !src[i].body.Other?
  }

  lemma MetaArrives(src: Listing, dest: Listing, n: nat)
    requires Tidy(src) && n <= |src| && !Has(dest, META)
    ensures Has(Overlay(src[..n], dest), META) <==> HoldsMeta(src, n)
  {
    var part := src[..n];
    TidyPrefix(src, n);
    OverlayLookup(part, dest, META);
    if i :| 0 <= i < n && src[i].key == META && !src[i].body.Other? {
      assert part[i] == src[i];
      LookupAt(part, i);
    }
    var p := Position(part, META);
    assert p < n ==> part[p] == src[p] && src[p].key == META;
  }

  /** Where the destination has no sidecar, it is never the sidecar that cannot be copied. */
  lemma MetaFits(src: Listing, dest: Listing, i: nat)
    requires Tidy(src) && i < |src| && src[i].key == META && !Has(dest, META)
    ensures Fits(src[i], dest)
  {
    assert TidyEntry(src[i]);
    if src[i].body.Dir? {
      CopyIntoEmpty(src[i].body.entries);
    }
  }

  lemma WholeCopyMeta(src: Listing, dest: Listing)
    requires Tidy(src) && !Has(dest, META)
    ensures Has(Overlay(src, dest), META) <==> HoldsMeta(src, |src|)
  {
    MetaArrives(src, dest, |src|);
    assert src[..|src|] == src;
  }

  /** What a copy that stopped early leaves of the sidecar. */
  lemma CutCopyMeta(src: Listing, dest: Listing, copied: Listing, at: nat)
    requires Tidy(src) && !Has(dest, META) && CopiedUpTo(src, dest, copied, at)
    ensures Has(copied, META) <==> HoldsMeta(src, at)
  {
    if src[at].key == META {
      MetaFits(src, dest, at);
    }
    MetaArrives(src, dest, at);
    assert Lookup(copied, META) == Lookup(Overlay(src[..at], dest), META);
  }

  /** What a copy leaves: everything, or what came before the first entry that could not be copied;
      and the sidecar if it was among that. */
  ghost predicate CopyLeaves(src: Listing, dest: Listing, copied: Listing, at: nat) {
    && at <= |src| && Tidy(copied)
    && (if Compatible(src, dest) then at == |src| && copied == Overlay(src, dest)
        else CopiedUpTo(src, dest, copied, at))
    && (Has(copied, META) <==> HoldsMeta(src, at))
  }

  method CopySnapshot(src: Listing, dest: Listing) returns (ok: bool, copied: Listing, ghost at: nat)
    requires Tidy(src) && Tidy(dest) && !Has(dest, META)
    ensures ok <==> Compatible(src, dest)
    ensures CopyLeaves(src, dest, copied, at)
  {
    ok, copied, at := CopyDirContents(src, dest);
    if ok {
      at := |src|;
      WholeCopyMeta(src, dest);
    } else {
      CutCopyMeta(src, dest, copied, at);
    }
  }

  /** The tenant that a directory holds, opened under what its own sidecar records. */
  function Held(dir: Listing, lib: Library): Result<Restored> {
    var disk := DiskOf(dir, lib);
    if disk.meta.None? then Err(Io)
    else match OpenIndex(disk, disk.meta.value.dim)
         case Err(e) => Err(e)
         case Ok(index) => Ok(Restored(disk.meta.value.tenantId, disk.meta.value, index))
  }

  /** Copy a snapshot into a directory that holds no tenant yet and open it under the id and
      dimension its own sidecar records. A failed copy leaves what came before the entry that could
      not be copied, a failed open leaves the whole copy; a retry is answered `AlreadyExists` exactly
      when the sidecar is in what was left. */
  method RestoreFrom(src: Option<Listing>, dest: Option<Listing>, lib: Library, list: Lister)
    returns (r: Result<Restored>, dest': Option<Listing>, ghost at: nat)
    requires Tidy(OrEmpty(src)) && Tidy(OrEmpty(dest)) && Lists(list)
    ensures r == Err(AlreadyExists) <==> Has(OrEmpty(dest), META)
    ensures r == Err(NotFound) <==> !Has(OrEmpty(dest), META) && !Has(OrEmpty(src), META)
    ensures r.Ok? <==>
              && !Has(OrEmpty(dest), META) && Has(OrEmpty(src), META)
              && Compatible(list(OrEmpty(src)), OrEmpty(dest))
              && Held(list(Overlay(list(OrEmpty(src)), OrEmpty(dest))), lib).Ok?
    ensures r.Ok? ==>
              && dest' == Some(Overlay(list(OrEmpty(src)), OrEmpty(dest)))
              && r == Held(list(dest'.value), lib)
    ensures !Has(OrEmpty(dest), META) && Has(OrEmpty(src), META) && r.Err? ==>
              r.error == if !Compatible(list(OrEmpty(src)), OrEmpty(dest)) then Io
                         else Held(list(Overlay(list(OrEmpty(src)), OrEmpty(dest))), lib).error
    ensures r == Err(AlreadyExists) || r == Err(NotFound) ==> dest' == dest
    ensures !Has(OrEmpty(dest), META) && Has(OrEmpty(src), META) ==>
              dest'.Some? && CopyLeaves(list(OrEmpty(src)), OrEmpty(dest), dest'.value, at)
  {
    dest', at := dest, 0;
    if Position(OrEmpty(dest), META) < |OrEmpty(dest)| {
      return Err(AlreadyExists), dest', at;
    }
    if Position(OrEmpty(src), META) == |OrEmpty(src)| {
      return Err(NotFound), dest', at;
    }
    var ok, copied;
    ok, copied, at := CopySnapshot(list(OrEmpty(src)), OrEmpty(dest));
    dest' := Some(copied);
    if !ok {
      return Err(Io), dest', at;
    }
    r := OpenCopy(list(copied), lib);
  }

  method OpenCopy(dir: Listing, lib: Library) returns (r: Result<Restored>)
    ensures r == Held(dir, lib)
    ensures r.Err? ==> r.error == Io || r.error.DimMismatch?
  {
    var disk := DiskOf(dir, lib);
    if disk.meta.None? {
      return Err(Io);
    }
    var id, dim := disk.meta.value.tenantId, disk.meta.value.dim;
    match OpenSidecar(disk, id, dim) {
      case Err(e) => r := Err(e);
      case Ok(sidecar) => r := Ok(Restored(id, sidecar, disk.index.value));
    }
  }

  // ---------------------------------------------------------------- round trip

  lemma {:induction false} NothingReplaced(src: Listing)
    ensures Replaced(src, []) == 0
    decreases src, 1
  {
    if src == [] {
    } else {
      NothingReplaced(src[..|src| - 1]);
      NoneReplaced(src[|src| - 1]);
    }
  }

  lemma {:induction false} NoneReplaced(e: Row<string, Node>)
    ensures EntryReplaced(e, []) == 0
    decreases e, 0
  {
    if e.body.Dir? {
      NothingReplaced(e.body.entries);
    }
  }

  /** Two listings of one directory mean the same tenant directory. */
  lemma SameTreeSameDisk(a: Listing, b: Listing, lib: Library)
    requires Trusted(lib) && SameTree(a, b)
    ensures DiskOf(a, lib) == DiskOf(b, lib)
  {
    SameUnder(a, b, META);
    SameUnder(a, b, TIER_KIND);
    SameUnder(a, b, CURRENT);
  }

  /** A copy into an empty directory, in whatever order the source is listed, succeeds and keeps the
      sidecar file byte for byte, the index and the byte total. */
  lemma CopyKeepsTenant(src: Listing, lib: Library, list: Lister)
    requires Trusted(lib) && Lists(list) && Tidy(src) && ReadMeta(src, lib).Some?
    ensures var copy := Overlay(list(src), []);
            && Compatible(list(src), []) && SameTree(copy, Plain(src))
            && Has(copy, META) && Lookup(copy, META) == Lookup(src, META)
            && ReadMeta(copy, lib) == ReadMeta(src, lib) && lib.openIndex(copy) == lib.openIndex(src)
            && Bytes(copy) == Bytes(src)
  {
    CopyIntoEmpty(src);
    CopyIgnoresOrder(src, list(src), [], []);
    PlainKeepsTenant(src, lib);
    SameTreeKeepsTenant(Plain(src), Overlay(list(src), []), lib);
  }

  lemma PlainKeepsTenant(src: Listing, lib: Library)
    requires Trusted(lib) && Tidy(src) && ReadMeta(src, lib).Some?
    ensures Tidy(Plain(src)) && Lookup(Plain(src), META) == Lookup(src, META)
    ensures lib.openIndex(Plain(src)) == lib.openIndex(src) && Bytes(Plain(src)) == Bytes(src)
  {
    CopyIntoEmpty(src);
    OverlayTidy(src, []);
    OverlayLookup(src, [], META);
    CopyConservesBytes(src, []);
    NothingReplaced(src);
  }

  lemma SameTreeKeepsTenant(a: Listing, b: Listing, lib: Library)
    requires Trusted(lib) && SameTree(a, b) && ReadMeta(a, lib).Some?
    ensures SameTree(b, a) && Has(b, META) && Lookup(b, META) == Lookup(a, META)
    ensures lib.openIndex(b) == lib.openIndex(a) && Bytes(b) == Bytes(a)
  {
    SameUnder(a, b, META);
    BytesIgnoreOrder(a, b);
  }

  lemma FlushIsRead(dir: Listing, sidecar: Sidecar, readOnly: bool, lib: Library)
    requires Trusted(lib) && Tidy(dir)
    requires readOnly ==> ReadMeta(dir, lib) == Some(sidecar)
    ensures var flushed := Flushed(dir, sidecar, readOnly, lib);
            Tidy(flushed) && ReadMeta(flushed, lib) == Some(sidecar) && lib.openIndex(flushed) == lib.openIndex(dir)
  {
    if !readOnly {
      FlushTidy(dir, sidecar, lib);
    }
  }

  /** Snapshot into an empty directory and restore into another, however the file system lists any
      of them: the same records, vectors, dimension and persisted id as the tenant in memory, the
      same tree in as many bytes - and the restored handle carries the persisted id. */
  method RoundTrip(dir: Listing, sidecar: Sidecar, index: Index, readOnly: bool, lib: Library, list: Lister)
    returns (r: Result<Restored>, taken: Listing, back: Option<Listing>)
    requires Trusted(lib) && Lists(list) && Tidy(dir) && MetaWritable(dir)
    requires lib.openIndex(dir) == Some(index) && index.dim == sidecar.dim
    requires readOnly ==> ReadMeta(dir, lib) == Some(sidecar)
    ensures r == Ok(Restored(sidecar.tenantId, sidecar, index))
    ensures SameTree(taken, Plain(Flushed(dir, sidecar, readOnly, lib)))
    ensures back.Some? && SameTree(back.value, Plain(taken))
    ensures Bytes(back.value) == Bytes(taken) == Bytes(Flushed(dir, sidecar, readOnly, lib))
  {
    FlushIsRead(dir, sidecar, readOnly, lib);
    CopyKeepsTenant(Flushed(dir, sidecar, readOnly, lib), lib, list);
    var ok, dir';
    ghost var at;
    ok, dir', taken, at := TakeSnapshot(dir, sidecar, readOnly, None, lib, list, true);
    CopyKeepsTenant(taken, lib, list);
    ghost var copy := Overlay(list(taken), []);
    SameTreeSameDisk(copy, list(copy), lib);
    r, back, at := RestoreFrom(Some(taken), None, lib, list);
  }
}
