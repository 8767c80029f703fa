/** The in-memory reference tenant: quota-checked inserts, byte accounting, exact search. */
module Mock {
  import opened Keyed
  import opened Events
  import opened TenantState
  import opened Numbers
  import opened Query
  import opened TopK
  import Text

  datatype Stored = Stored(embedding: Vec, meta: Meta)

  type MockRecord = Row<nat, Stored>

  datatype Quota = Quota(maxBytes: Option<nat>, maxRecords: Option<nat>)

  const UNLIMITED := Quota(None, None)

  datatype Usage = Usage(bytes: nat, records: nat)

  datatype Verdict = Inserted | Exceeded(dimension: string, cap: nat, attempted: nat)

  datatype MockState = MockState(records: seq<MockRecord>, quota: Quota)

  // ---------------------------------------------------------------- byte accounting

  function TagBytes(tags: seq<string>): nat {
    if tags == [] then 0 else |Text.Utf8(tags[0])| + TagBytes(tags[1..])
  }

  /** Four bytes a component, the UTF-8 bytes of the tags, the payload. */
  function EstimateSize(s: Stored): nat {
    4 * |s.embedding| + TagBytes(s.meta.tags) + |s.meta.payload|
  }

  lemma {:induction false} TagBytesEnd(tags: seq<string>, tag: string)
    ensures TagBytes(tags + [tag]) == TagBytes(tags) + |Text.Utf8(tag)|
  {
    if tags == [] {
      assert [] + [tag] == [tag] && [tag][1..] == [];
    } else {
      assert (tags + [tag])[1..] == tags[1..] + [tag];
      TagBytesEnd(tags[1..], tag);
    }
  }

  /** What a record counts for: nothing when it holds nothing, one for each byte of payload, four for
      each component of the vector, and for each tag the length of its UTF-8 encoding. */
  lemma SizeGrows(s: Stored, b: Byte, x: real, tag: string)
    ensures EstimateSize(Stored([], Meta(s.meta.shareable, [], []))) == 0
    ensures EstimateSize(s.(meta := s.meta.(payload := s.meta.payload + [b]))) == EstimateSize(s) + 1
    ensures |s.embedding| + 1 < 0x1_0000_0000 ==>
              EstimateSize(s.(embedding := s.embedding + [x])) == EstimateSize(s) + 4
    ensures EstimateSize(s.(meta := s.meta.(tags := s.meta.tags + [tag]))) == EstimateSize(s) + |Text.Utf8(tag)|
  {
    TagBytesEnd(s.meta.tags, tag);
  }

  function Bytes(records: seq<MockRecord>): nat {
    if records == [] then 0 else EstimateSize(records[0].body) + Bytes(records[1..])
  }

  function SizeAt(records: seq<MockRecord>, id: nat): nat {
    match Lookup(records, id) case None => 0 case Some(s) => EstimateSize(s)
  }

  lemma {:induction false} BytesAppend(a: seq<MockRecord>, b: seq<MockRecord>)
    ensures Bytes(a + b) == Bytes(a) + Bytes(b)
  {
    if a == [] {
      assert a + b == b;
    } else {
      assert (a + b)[1..] == a[1..] + b;
      BytesAppend(a[1..], b);
    }
  }

  lemma BytesOne(r: MockRecord)
    ensures Bytes([r]) == EstimateSize(r.body)
  {
    assert Bytes([r][1..]) == 0;
  }

  /** Usage after an upsert: the old size of the id leaves, the new one enters. */
  lemma BytesUpsert(records: seq<MockRecord>, row: MockRecord)
    ensures SizeAt(records, row.key) <= Bytes(records)
    ensures Bytes(Upsert(records, row)) == Bytes(records) - SizeAt(records, row.key) + EstimateSize(row.body)
  {
    var p := Position(records, row.key);
    BytesOne(row);
    if p < |records| {
      BytesOne(records[p]);
      assert records == records[..p] + [records[p]] + records[p + 1..];
      assert records[p := row] == records[..p] + [row] + records[p + 1..];
      BytesAppend(records[..p], [records[p]]);
      BytesAppend(records[..p] + [records[p]], records[p + 1..]);
      BytesAppend(records[..p], [row]);
      BytesAppend(records[..p] + [row], records[p + 1..]);
    } else {
      BytesAppend(records, [row]);
    }
  }

  lemma {:induction false} BytesRemove(records: seq<MockRecord>, id: nat)
    ensures Bytes(Remove(records, id)) <= Bytes(records)
  {
    if records == [] {
    } else {
      BytesRemove(records[1..], id);
      if records[0].key != id {
        assert ([records[0]] + Remove(records[1..], id))[1..] == Remove(records[1..], id);
      }
    }
  }

  // ---------------------------------------------------------------- insert under quota

  /** Only growth is checked: records first, then bytes. */
  function Admit(s: MockState, row: MockRecord): Verdict {
    if Has(s.records, row.key) then Inserted
    else if s.quota.maxRecords.Some? && |s.records| + 1 > s.quota.maxRecords.value then
      Exceeded("records", s.quota.maxRecords.value, |s.records| + 1)
    else if s.quota.maxBytes.Some? && Bytes(s.records) + EstimateSize(row.body) > s.quota.maxBytes.value then
      Exceeded("bytes", s.quota.maxBytes.value, Bytes(s.records) + EstimateSize(row.body))
    else Inserted
  }

  function InsertedInto(s: MockState, row: MockRecord): MockState {
    if Admit(s, row).Inserted? then s.(records := Upsert(s.records, row)) else s
  }

  /** An accepted growing insert ends within both caps; a new id is accepted exactly then. */
  lemma GrowthMeetsCaps(s: MockState, row: MockRecord)
    requires !Has(s.records, row.key)
    ensures Admit(s, row).Inserted? <==>
              var after := Upsert(s.records, row);
              && (s.quota.maxRecords.Some? ==> |after| <= s.quota.maxRecords.value)
              && (s.quota.maxBytes.Some? ==> Bytes(after) <= s.quota.maxBytes.value)
  {
    BytesUpsert(s.records, row);
  }

  /** What a refusal says: the cap that would be passed - the one on records, when both would - and
      the usage the insert would have led to. */
  lemma RefusalSays(s: MockState, row: MockRecord)
    ensures var after := Upsert(s.records, row);
            match Admit(s, row)
            case Inserted => true
            case Exceeded(dimension, cap, attempted) =>
              && attempted > cap && dimension in {"records", "bytes"}
              && (dimension == "records" ==> s.quota.maxRecords == Some(cap) && attempted == |after|)
              && (dimension == "bytes" ==>
                    && s.quota.maxBytes == Some(cap) && attempted == Bytes(after)
                    && (s.quota.maxRecords.Some? ==> |after| <= s.quota.maxRecords.value))
  {
    BytesUpsert(s.records, row);
  }

  /** Into an empty store, a vector of one component with a payload of 1000 bytes and no tags counts
      for 1004 bytes, and goes in exactly when the cap allows that. */
  lemma ThousandAndFour(key: nat, shareable: bool, x: real, payload: seq<Byte>, cap: nat)
    requires |payload| == 1000
    ensures var row := Row(key, Stored([x], Meta(shareable, [], payload)));
            Admit(MockState([], Quota(Some(cap), None)), row)
            == if cap < 1004 then Exceeded("bytes", cap, 1004) else Inserted
  {
  }

  /** An overwrite is never refused, and stays within the byte cap exactly when the new total
      fits: the cap can be passed by an overwrite alone. */
  lemma OverwriteIgnoresCaps(s: MockState, row: MockRecord)
    requires Has(s.records, row.key) && s.quota.maxBytes.Some?
    ensures InsertedInto(s, row).records == Upsert(s.records, row) && |Upsert(s.records, row)| == |s.records|
    ensures Bytes(InsertedInto(s, row).records) <= s.quota.maxBytes.value
            <==> Bytes(s.records) - SizeAt(s.records, row.key) + EstimateSize(row.body) <= s.quota.maxBytes.value
  {
    BytesUpsert(s.records, row);
  }

  // ---------------------------------------------------------------- whole runs

  datatype Op = Ins(row: MockRecord) | Del(id: nat) | SetQuota(quota: Quota)

  function Apply(s: MockState, op: Op): MockState {
    match op
    case Ins(row) => InsertedInto(s, row)
    case Del(id) => s.(records := Remove(s.records, id))
    case SetQuota(q) => s.(quota := q)
  }

  /** What the operation broadcasts. */
  function Emits(s: MockState, op: Op): seq<Event> {
    match op
    case Ins(row) => if Admit(s, row).Inserted? then [RecordInserted(row.key, row.body.meta.shareable)] else []
    case Del(id) => if Has(s.records, id) then [RecordDeleted(id)] else []
    case SetQuota(_) => []
  }

  function RunOps(s: MockState, ops: seq<Op>): MockState
    decreases |ops|
  {
    if ops == [] then s else RunOps(Apply(s, ops[0]), ops[1..])
  }

  function Log(s: MockState, ops: seq<Op>): seq<Event>
    decreases |ops|
  {
    if ops == [] then [] else Emits(s, ops[0]) + Log(Apply(s, ops[0]), ops[1..])
  }

  lemma RunStep(s: MockState, op: Op, rest: seq<Op>)
    ensures RunOps(s, [op] + rest) == RunOps(Apply(s, op), rest)
  {
    assert ([op] + rest)[1..] == rest;
  }

  /** A run from an empty unlimited store that ends above its byte cap: the cap is set to the size of
      a record, the record is inserted, and a larger one overwrites it. */
  lemma CapIsPassed(small: MockRecord, big: MockRecord)
    requires small.key == big.key && EstimateSize(small.body) < EstimateSize(big.body)
    ensures var cap := EstimateSize(small.body);
            var ops := [SetQuota(Quota(Some(cap), None)), Ins(small), Ins(big)];
            RunOps(MockState([], UNLIMITED), ops) == MockState([big], Quota(Some(cap), None))
    ensures Bytes([big]) > EstimateSize(small.body)
  {
    var quota := Quota(Some(EstimateSize(small.body)), None);
    var set_, put, over := SetQuota(quota), Ins(small), Ins(big);
    BytesOne(big);
    BytesOne(small);
    assert [set_, put, over] == [set_] + [put, over] && [put, over] == [put] + [over] && [over] == [over] + [];
    RunStep(MockState([], UNLIMITED), set_, [put, over]);
    RunStep(MockState([], quota), put, [over]);
    assert Upsert([], small) == [small] && Upsert([small], big) == [big];
    RunStep(MockState([small], quota), over, []);
  }

  /** How much an operation grows the bytes by overwriting a record with a larger one. */
  function Overgrowth(s: MockState, op: Op): nat {
    if op.Ins? && Has(s.records, op.row.key) && EstimateSize(op.row.body) > SizeAt(s.records, op.row.key)
    then EstimateSize(op.row.body) - SizeAt(s.records, op.row.key)
    else 0
  }

  function TotalOvergrowth(s: MockState, ops: seq<Op>): nat
    decreases |ops|
  {
    if ops == [] then 0 else Overgrowth(s, ops[0]) + TotalOvergrowth(Apply(s, ops[0]), ops[1..])
  }

  /** Under one quota, records never exceed the cap or the count at the start, and bytes exceed
      the larger of cap and starting bytes by at most what overwrites added. */
  lemma {:induction false} QuotaHoldsOverRuns(s: MockState, ops: seq<Op>)
    requires forall i :: 0 <= i < |ops| ==> !ops[i].SetQuota?
    ensures var t := RunOps(s, ops);
            && t.quota == s.quota
            && (s.quota.maxRecords.Some? ==> |t.records| <= Max(s.quota.maxRecords.value, |s.records|))
            && (s.quota.maxBytes.Some? ==>
                  Bytes(t.records) <= Max(s.quota.maxBytes.value, Bytes(s.records)) + TotalOvergrowth(s, ops))
    decreases |ops|
  {
    if ops == [] {
    } else {
      QuotaHoldsOverRuns(Apply(s, ops[0]), ops[1..]);
      match ops[0]
      case Ins(row) => BytesUpsert(s.records, row);
      case Del(id) => BytesRemove(s.records, id);
    }
  }

  /** A refused insert changes no record and is not announced; nor is a delete of an absent id. */
  lemma RefusedIsSilent(s: MockState, op: Op)
    ensures Emits(s, op) == [] ==> Apply(s, op).records == s.records
    ensures op.Ins? && Admit(s, op.row).Exceeded? ==> Apply(s, op) == s && Emits(s, op) == []
  {
  }

  // ---------------------------------------------------------------- replay

  /** The id-to-shareable view of the records. */
  function View(records: seq<MockRecord>): map<nat, bool> {
    if records == [] then map[]
    else View(records[1..])[records[0].key := records[0].body.meta.shareable]
  }

  lemma {:induction false} ViewIsLookup(records: seq<MockRecord>, id: nat)
    ensures id in View(records) <==> Has(records, id)
    ensures id in View(records) ==>
              Lookup(records, id).Some? && View(records)[id] == Lookup(records, id).value.meta.shareable
  {
    if records == [] {
    } else {
      ViewIsLookup(records[1..], id);
      HasCons(records, id);
      PositionCons(records[1..], records[0], id);
      assert records == [records[0]] + records[1..];
    }
  }

  lemma OpIsReplayed(s: MockState, op: Op)
    ensures Replay(View(s.records), Emits(s, op)) == View(Apply(s, op).records)
  {
    var before, after := s.records, Apply(s, op).records;
    var v, v' := View(before), View(after);
    forall id: nat
      ensures match op
              case Ins(row) => Admit(s, row).Inserted? ==>
                (id in v' <==> id == row.key || id in v)
                && (id in v' ==> v'[id] == if id == row.key then row.body.meta.shareable else v[id])
              case Del(d) => (id in v' <==> id != d && id in v) && (id in v' ==> v'[id] == v[id])
              case SetQuota(_) => true
    {
      ViewIsLookup(before, id);
      ViewIsLookup(after, id);
      match op
      case Ins(row) => if Admit(s, row).Inserted? { UpsertIsUpdate(before, row, id); }
      case Del(d) => RemoveIsDelete(before, d, id);
      case SetQuota(_) =>
    }
    if Emits(s, op) != [] {
      var e := Emits(s, op)[0];
      ReplayEnd(v, [], e);
      assert [] + [e] == Emits(s, op);
      assert Fold1(v, e).Keys == v'.Keys;
      assert Fold1(v, e) == v';
    }
  }

  /** Replaying the events of a sequential run over the view at subscription gives the view at the
      end, quota refusals and silent deletes included. */
  lemma {:induction false} RunIsReplayed(s: MockState, ops: seq<Op>)
    ensures Replay(View(s.records), Log(s, ops)) == View(RunOps(s, ops).records)
    decreases |ops|
  {
    if ops == [] {
    } else {
      OpIsReplayed(s, ops[0]);
      RunIsReplayed(Apply(s, ops[0]), ops[1..]);
      ReplayAppend(View(s.records), Emits(s, ops[0]), Log(Apply(s, ops[0]), ops[1..]));
    }
  }

  /** A delete is announced only for an id present at that moment: replaying the log up to it
      shows the id. */
  lemma {:induction false} DeletesArePresent(s: MockState, ops: seq<Op>, i: nat)
    requires i < |Log(s, ops)| && Log(s, ops)[i].RecordDeleted?
    ensures Log(s, ops)[i].id in Replay(View(s.records), Log(s, ops)[..i])
    decreases |ops|
  {
    var first, rest := Emits(s, ops[0]), Log(Apply(s, ops[0]), ops[1..]);
    OpIsReplayed(s, ops[0]);
    if i < |first| {
      ViewIsLookup(s.records, Log(s, ops)[i].id);
    } else {
      DeletesArePresent(Apply(s, ops[0]), ops[1..], i - |first|);
      ReplayAppend(View(s.records), first, rest[..i - |first|]);
      assert Log(s, ops)[..i] == first + rest[..i - |first|];
    }
  }

  // ---------------------------------------------------------------- exact search

  /** One hit per accepted record, in record order. */
  function Hits(records: seq<MockRecord>, query: Vec, accept: Filter, score: (Vec, Vec) -> real): seq<Hit> {
    if records == [] then []
    else
      var r := records[0];
      (if accept(r.key, r.body.meta.shareable, r.body.meta.tags)
       then [Hit(r.key, score(query, r.body.embedding), r.body.meta.payload, Some(r.body.embedding))] else [])
      + Hits(records[1..], query, accept, score)
  }

  predicate HitOf(h: Hit, r: MockRecord, query: Vec, accept: Filter, score: (Vec, Vec) -> real) {
    && accept(r.key, r.body.meta.shareable, r.body.meta.tags)
    && h == Hit(r.key, score(query, r.body.embedding), r.body.meta.payload, Some(r.body.embedding))
  }

  /** The hits are exactly those of the accepted records, and keep distinct ids distinct. */
  lemma {:induction false} HitsAreAcceptedRecords(records: seq<MockRecord>, query: Vec, accept: Filter,
                                                  score: (Vec, Vec) -> real)
    ensures forall h :: h in Hits(records, query, accept, score)
              <==> exists i :: 0 <= i < |records| && HitOf(h, records[i], query, accept, score)
    ensures Unique(records) ==> DistinctIds(Hits(records, query, accept, score))
  {
    if records == [] {
    } else {
      var tail := records[1..];
      HitsAreAcceptedRecords(tail, query, accept, score);
      UniqueCons(records);
      var hs, all := Hits(tail, query, accept, score), Hits(records, query, accept, score);
      forall h ensures h in all <==> exists i :: 0 <= i < |records| && HitOf(h, records[i], query, accept, score) {
        if i :| 0 <= i < |records| && HitOf(h, records[i], query, accept, score) {
          if i > 0 { assert tail[i - 1] == records[i]; assert h in hs; }
        }
        if h in hs {
          var i :| 0 <= i < |tail| && HitOf(h, tail[i], query, accept, score);
          assert records[i + 1] == tail[i];
        } else if h in all {
          assert HitOf(h, records[0], query, accept, score);
        }
      }
      if Unique(records) {
        forall j | 0 <= j < |hs| ensures hs[j].id != records[0].key {
          assert hs[j] in hs;
          var i :| 0 <= i < |tail| && HitOf(hs[j], tail[i], query, accept, score);
        }
      }
    }
  }

  /** The filter is asked about the record itself, here too. */
  lemma FilterSeesTheRecord(records: seq<MockRecord>, query: Vec, score: (Vec, Vec) -> real, tag: string, own: nat, h: Hit)
    ensures h in Hits(records, query, (_: nat, shareable: bool, _: seq<string>) => shareable, score) ==>
              exists r :: r in records && r.key == h.id && r.body.meta.shareable
    ensures h in Hits(records, query, (_: nat, _: bool, tags: seq<string>) => tag in tags, score) ==>
              exists r :: r in records && r.key == h.id && tag in r.body.meta.tags
    ensures h in Hits(records, query, (id: nat, _: bool, _: seq<string>) => id == own, score) ==> h.id == own
  {
    HitHasItsRecord(records, query, (_: nat, shareable: bool, _: seq<string>) => shareable, score, h);
    HitHasItsRecord(records, query, (_: nat, _: bool, tags: seq<string>) => tag in tags, score, h);
    HitHasItsRecord(records, query, (id: nat, _: bool, _: seq<string>) => id == own, score, h);
  }

  lemma HitHasItsRecord(records: seq<MockRecord>, query: Vec, accept: Filter, score: (Vec, Vec) -> real, h: Hit)
    ensures h in Hits(records, query, accept, score) ==>
              exists r :: r in records && r.key == h.id && accept(r.key, r.body.meta.shareable, r.body.meta.tags)
  {
    HitsAreAcceptedRecords(records, query, accept, score);
    if h in Hits(records, query, accept, score) {
      var i :| 0 <= i < |records| && HitOf(h, records[i], query, accept, score);
      assert records[i] in records;
    }
  }

  // ---------------------------------------------------------------- the class

  class MockTenant {
    const tenantId: TenantId
    const dim: nat
    const bus: Broadcaster
    var records: seq<MockRecord>
    var quota: Quota

    predicate Valid()
      reads this, bus
    {
      && bus.Valid()
      && Unique(records)
      && forall r :: r in records ==> |r.body.embedding| == dim
    }

    function State(): MockState
      reads this
    {
      MockState(records, quota)
    }

    constructor (tenantId: TenantId, dim: nat)
      ensures Valid() && fresh(bus) && bus.subscribers == []
      ensures this.tenantId == tenantId && this.dim == dim && State() == MockState([], UNLIMITED)
    {
      this.tenantId, this.dim := tenantId, dim;
      records, quota := [], UNLIMITED;
      bus := new Broadcaster();
    }

    method Insert(id: nat, embedding: Vec, meta: Meta) returns (r: Verdict)
      requires Valid() && |embedding| == dim
      modifies this`records, bus`subscribers, (set c: Channel | c in bus.subscribers)`queue
      ensures Valid()
      ensures var op := Ins(Row(id, Stored(embedding, meta)));
              && r == Admit(old(State()), op.row)
              && State() == Apply(old(State()), op)
              && (if r.Inserted? then bus.Sent(old(bus.subscribers), RecordInserted(id, meta.shareable))
                  else bus.Silent(old(bus.subscribers)))
    {
      var rec := Row(id, Stored(embedding, meta));
      var pos := Position(records, id);
      var isOverwrite := pos < |records|;
      if !isOverwrite {
        var nextRecords := |records| + 1;
        if quota.maxRecords.Some? && nextRecords > quota.maxRecords.value {
          return Exceeded("records", quota.maxRecords.value, nextRecords);
        }
        if quota.maxBytes.Some? {
          var nextBytes := Bytes(records) + EstimateSize(rec.body);
          if nextBytes > quota.maxBytes.value {
            return Exceeded("bytes", quota.maxBytes.value, nextBytes);
          }
        }
      }
      UpsertIsUpdate(records, rec, id);
      if isOverwrite {
        records := records[pos := rec];
      } else {
        records := records + [rec];
      }
      bus.Emit(RecordInserted(id, meta.shareable));
      r := Inserted;
    }

    method Delete(id: nat) returns (removed: bool)
      requires Valid()
      modifies this`records, bus`subscribers, (set c: Channel | c in bus.subscribers)`queue
      ensures Valid()
      ensures removed == Has(old(records), id)
      ensures State() == Apply(old(State()), Del(id))
      ensures if removed then bus.Sent(old(bus.subscribers), RecordDeleted(id)) else bus.Silent(old(bus.subscribers))
    {
      var before := |records|;
      RemoveIsDelete(records, id, id);
      RemoveMembers(records, id);
      records := Remove(records, id);
      removed := |records| != before;
      if removed {
        bus.Emit(RecordDeleted(id));
      }
    }

    method SetQuotaTo(q: Quota)
      requires Valid()
      modifies this`quota
      ensures Valid() && State() == Apply(old(State()), SetQuota(q))
    {
      quota := q;
    }

    /** The usage the quota is held against: a new record goes in exactly when it leaves room. */
    method CurrentUsage() returns (u: Usage)
      ensures u == Usage(Bytes(records), |records|)
      ensures forall row: MockRecord :: !Has(records, row.key) ==>
                (Admit(State(), row).Inserted? <==>
                   && (quota.maxRecords.Some? ==> u.records < quota.maxRecords.value)
                   && (quota.maxBytes.Some? ==> u.bytes + EstimateSize(row.body) <= quota.maxBytes.value))
    {
      u := Usage(Bytes(records), |records|);
    }

    /** The answer is the top k of the accepted records, ties in record order. */
    method QueryFiltered(embedding: Vec, topK: nat, accept: Filter, score: (Vec, Vec) -> real)
      returns (r: Result<seq<Hit>>)
      requires Valid()
      ensures r.Ok? <==> |embedding| == dim
      ensures r.Err? ==> r.error == DimMismatch(dim, |embedding|)
      ensures r.Ok? ==> IsTopK(r.value, Hits(records, embedding, accept, score), topK)
    {
      if |embedding| != dim {
        return Err(DimMismatch(dim, |embedding|));
      }
      var hits := Hits(records, embedding, accept, score);
      HitsAreAcceptedRecords(records, embedding, accept, score);
      SortTakeIsTopK(hits, topK, Take(SortDesc(hits), topK));
      hits := SortDesc(hits);
      hits := Take(hits, topK);
      r := Ok(hits);
    }
  }

  // ---------------------------------------------------------------- runs of the class

  /** The live subscribers have all been handed `log` since, and are still registered; nobody new is. */
  twostate predicate Handed(t: MockTenant, was: seq<Channel>, log: seq<Event>)
    reads t.bus, was
  {
    && (forall c :: c in was && c.receiverAlive ==> c.queue == old(c.queue) + log && c in t.bus.subscribers)
    && (forall c :: c in t.bus.subscribers ==> c in was)
  }

  method Perform(t: MockTenant, op: Op)
    requires t.Valid() && (op.Ins? ==> |op.row.body.embedding| == t.dim)
    modifies t`records, t`quota, t.bus`subscribers, (set c: Channel | c in t.bus.subscribers)`queue
    ensures t.Valid() && t.State() == Apply(old(t.State()), op)
    ensures Handed(t, old(t.bus.subscribers), Emits(old(t.State()), op))
  {
    ghost var was := t.bus.subscribers;
    match op {
      case Ins(row) => var _ := t.Insert(row.key, row.body.embedding, row.body.meta);
      case Del(id) => var _ := t.Delete(id);
      case SetQuota(quota) => t.SetQuotaTo(quota);
    }
    LiveOnesMembers(was);
  }

  lemma RunNext(s: MockState, ops: seq<Op>, i: nat, sent: seq<Event>)
    requires i < |ops|
    ensures RunOps(s, ops[i..]) == RunOps(Apply(s, ops[i]), ops[i + 1..])
    ensures sent + Log(s, ops[i..]) == (sent + Emits(s, ops[i])) + Log(Apply(s, ops[i]), ops[i + 1..])
  {
    assert ops[i..][0] == ops[i] && ops[i..][1..] == ops[i + 1..];
  }

  /** After any run of calls, every subscriber alive throughout has queued exactly the run's log. */
  method PerformAll(t: MockTenant, ops: seq<Op>)
    requires t.Valid() && forall i :: 0 <= i < |ops| && ops[i].Ins? ==> |ops[i].row.body.embedding| == t.dim
    modifies t`records, t`quota, t.bus`subscribers, (set c: Channel | c in t.bus.subscribers)`queue
    ensures t.Valid() && t.State() == RunOps(old(t.State()), ops)
    ensures Handed(t, old(t.bus.subscribers), Log(old(t.State()), ops))
  {
    ghost var was := t.bus.subscribers;
    ghost var sent: seq<Event> := [];
    for i := 0 to |ops|
      invariant t.Valid() && Handed(t, was, sent)
      invariant RunOps(t.State(), ops[i..]) == RunOps(old(t.State()), ops)
      invariant sent + Log(t.State(), ops[i..]) == Log(old(t.State()), ops)
    {
      ghost var s := t.State();
      RunNext(s, ops, i, sent);
      Perform(t, ops[i]);
      sent := sent + Emits(s, ops[i]);
    }
  }
}
