/**
 What the public calls of the file cache do, as functions from a state to a state and a reply.
 `Outcome` carries everything the environment decides during one call: which deletions, queries, writes,
 moves and opens succeed, the time, and the order in which the database lists its rows at start-up; `listed` rows of it
 are read when the listing fails.
 */
module FileCacheSpec {
  import opened Options
  import opened LruList
  import opened CacheSpec

  /** `ready` once the index has been rebuilt from the table. */
  datatype State = State(ready: bool, cache: Cache)

  datatype Outcome = Outcome(
    faults: Faults, now: int, directory: bool, loads: bool, order: seq<string>, listed: nat, selects: bool,
    touches: bool, opens: bool, moves: bool, losesTarget: bool, writes: bool, dropsTable: bool)

  datatype Reply = Reply(ok: bool, meta: Option<Metadata>, stream: Option<Body>)

  const NO := Reply(false, None, None)
  const YES := Reply(true, None, None)

  /** The file cache accepts every addition, update and look-up. */
  const ACCEPT := Answers(true, true, true)

  datatype Call =
    | GetMetadata(key: string)
    | GetData(key: string)
    | Get(key: string)
    | PutMetadata(key: string, meta: Metadata)
    | Put(key: string, meta: Metadata, body: Body)
    | Remove(key: string)
    | ReleaseData(key: string)
    | Purge(mayDeleteIfBusy: bool)

  // ---- start-up ----

  function StoredSize(rows: map<string, Row>, k: string): nat {
    if k in rows then rows[k].meta.bodySize else 0
  }

  function OnEnumerate(c: Cache, f: Faults, maxSize: nat, k: string, size: nat): Cache {
    var (roomy, ok) := MakeSpace(c, f, ACCEPT, maxSize, size, "");
    if ok then CacheSpec.Add(roomy, f, ACCEPT, maxSize, Entry(k, size, false, 0)).0 else c
  }

  function Load(c: Cache, f: Faults, maxSize: nat, rows: map<string, Row>, order: seq<string>): Cache
    decreases |order|
  {
    if order == [] then c
    else Load(OnEnumerate(c, f, maxSize, order[0], StoredSize(rows, order[0])), f, maxSize, rows, order[1..])
  }

  /** The listing of the table: every row once, least recently accessed first. */
  ghost predicate InOrder(rows: map<string, Row>, order: seq<string>) {
    && (forall i, j :: 0 <= i < j < |order| ==> order[i] != order[j])
    && (forall k :: k in order <==> k in rows)
    && (forall i, j :: 0 <= i < j < |order| ==> rows[order[i]].lastAccessed <= rows[order[j]].lastAccessed)
  }

  /** The rows that are read. */
  function Listing(o: Outcome): (order: seq<string>)
    ensures order <= o.order
  {
    if o.loads || o.listed >= |o.order| then o.order else o.order[..o.listed]
  }

  /**
   The answer says whether the call goes on: without the cache directory it does, on the index as it is. A listing that
   fails leaves the rows read so far in the index.
   */
  function Initialize(st: State, o: Outcome, maxSize: nat): (State, bool) {
    if st.ready || !o.directory then (st, true)
    else (State(o.loads, Load(st.cache, o.faults, maxSize, st.cache.disk.rows, Listing(o))), o.loads)
  }

  /** Without the cache directory no file in it can be opened or replaced, and that goes for the table as well. */
  function Reach(o: Outcome, ready: bool): Outcome {
    if ready then o else o.(opens := false, moves := false, losesTarget := false, dropsTable := false)
  }

  // ---- the calls, on an initialized cache ----

  function Touched(c: Cache, k: string, now: int): Cache {
    if k in c.disk.rows then c.(disk := c.disk.(rows := c.disk.rows[k := c.disk.rows[k].(lastAccessed := now)])) else c
  }

  /** Opens the body of `e` for one more reader. */
  function Open(c: Cache, o: Outcome, maxSize: nat, e: Entry): (Cache, Option<Body>) {
    if e.key !in c.disk.files || !o.opens then (c, None)
    else (Update(c, o.faults, ACCEPT, maxSize, e.(refs := e.refs + 1)).0, Some(c.disk.files[e.key]))
  }

  /** Reads the row of `k` and stamps its last access; a failing statement yields nothing. */
  function ReadRow(c: Cache, o: Outcome, k: string): (Cache, Option<Metadata>) {
    if !o.selects || k !in c.disk.rows || !o.touches then (c, None)
    else (Touched(c, k, o.now), Some(c.disk.rows[k].meta.(key := k)))
  }

  function DoGetMetadata(c: Cache, o: Outcome, k: string): (Cache, Reply) {
    match CacheSpec.Get(c, ACCEPT, k)
    case (c1, None) => (c1, NO)
    case (c1, Some(e)) =>
      if e.reserved then (c1, NO)
      else
        match ReadRow(c1, o, k)
        case (c2, None) => (c2, NO)
        case (c2, Some(meta)) => (c2, Reply(true, Some(meta), None))
  }

  function DoGetData(c: Cache, o: Outcome, maxSize: nat, k: string): (Cache, Reply) {
    match CacheSpec.Get(c, ACCEPT, k)
    case (c1, None) => (c1, NO)
    case (c1, Some(e)) =>
      if e.reserved then (c1, NO)
      else
        match Open(c1, o, maxSize, e)
        case (c2, None) => (c2, NO)
        case (c2, Some(body)) => (c2, Reply(true, None, Some(body)))
  }

  function DoGet(c: Cache, o: Outcome, maxSize: nat, k: string): (Cache, Reply) {
    match CacheSpec.Get(c, ACCEPT, k)
    case (c1, None) => (c1, NO)
    case (c1, Some(e)) =>
      if e.reserved then (c1, NO)
      else
        match ReadRow(c1, o, k)
        case (c2, None) => (c2, NO)
        case (c2, Some(meta)) =>
          match Open(c2, o, maxSize, e)
          case (c3, None) => (c3, NO)
          case (c3, Some(body)) => (c3, Reply(true, Some(meta), Some(body)))
  }

  function WithRow(c: Cache, meta: Metadata, now: int): Cache {
    c.(disk := c.disk.(rows := c.disk.rows[meta.key := Row(meta, now)]))
  }

  function WithFile(c: Cache, k: string, body: Body): Cache {
    c.(disk := c.disk.(files := c.disk.files[k := body]))
  }

  function WithoutFile(c: Cache, k: string): Cache {
    c.(disk := c.disk.(files := c.disk.files - {k}))
  }

  /** `removeFileIfPresent` on the body file of `k`. */
  function FileRemoved(c: Cache, f: Faults, k: string): Cache {
    var tried := c.(disk := c.disk.(deletions := c.disk.deletions + 1));
    if f.fileDeleted(c.disk.deletions) then WithoutFile(tried, k) else tried
  }

  function DoPutMetadata(c: Cache, o: Outcome, k: string, meta: Metadata): (Cache, Reply) {
    match CacheSpec.Get(c, ACCEPT, k)
    case (c1, None) => (c1, NO)
    case (c1, Some(e)) =>
      if e.reserved || e.refs != 0 || !o.writes then (c1, NO) else (WithRow(c1, meta, o.now), YES)
  }

  /** The body has been moved in: write the row, and only then the index; undo the move when the row fails. */
  function Store(c: Cache, o: Outcome, maxSize: nat, k: string, meta: Metadata, body: Body): (Cache, Reply) {
    if !o.moves then (if o.losesTarget then WithoutFile(c, k) else c, NO)
    else
      var moved := WithFile(c, k, body);
      if !o.writes then (FileRemoved(moved, o.faults, k), NO)
      else (Update(WithRow(moved, meta, o.now), o.faults, ACCEPT, maxSize, Entry(k, meta.bodySize, false, 0)).0, YES)
  }

  /** Removes the entry about to be replaced, ignoring a refusal; false when it is being read or due for removal. */
  function Displace(c: Cache, o: Outcome, k: string): (Cache, bool) {
    match CacheSpec.Get(c, ACCEPT, k)
    case (c1, None) => (c1, true)
    case (c1, Some(e)) =>
      if e.reserved || e.refs != 0 then (c1, false) else (CacheSpec.Remove(c1, o.faults, ACCEPT, k).0, true)
  }

  function DoPut(c: Cache, o: Outcome, maxSize: nat, k: string, meta: Metadata, body: Body): (Cache, Reply) {
    var (c1, free) := Displace(c, o, k);
    if !free then (c1, NO)
    else
      var (c2, roomy) := MakeSpace(c1, o.faults, ACCEPT, maxSize, meta.bodySize, "");
      if roomy then Store(c2, o, maxSize, k, meta, body) else (c2, NO)
  }

  function DoRemove(c: Cache, o: Outcome, k: string): (Cache, Reply) {
    var (c', ok) := CacheSpec.Remove(c, o.faults, ACCEPT, k);
    (c', Reply(ok, None, None))
  }

  function DoReleaseData(c: Cache, o: Outcome, maxSize: nat, k: string): Cache {
    match CacheSpec.Get(c, ACCEPT, k)
    case (c1, None) => c1
    case (c1, Some(e)) =>
      if e.refs == 0 then c1 else Update(c1, o.faults, ACCEPT, maxSize, e.(refs := e.refs - 1)).0
  }

  function TableDropped(c: Cache): Cache {
    c.(disk := c.disk.(rows := map[]))
  }

  function DoPurge(c: Cache, o: Outcome, mayDeleteIfBusy: bool): (Cache, Reply) {
    var (c1, ok) := Clear(c, o.faults, mayDeleteIfBusy);
    (if ok && o.dropsTable then TableDropped(c1) else c1, Reply(ok, None, None))
  }

  function Do(c: Cache, call: Call, o: Outcome, maxSize: nat): (Cache, Reply) {
    match call
    case GetMetadata(k) => DoGetMetadata(c, o, k)
    case GetData(k) => DoGetData(c, o, maxSize, k)
    case Get(k) => DoGet(c, o, maxSize, k)
    case PutMetadata(k, meta) => DoPutMetadata(c, o, k, meta)
    case Put(k, meta, body) => DoPut(c, o, maxSize, k, meta, body)
    case Remove(k) => DoRemove(c, o, k)
    case ReleaseData(k) => (DoReleaseData(c, o, maxSize, k), YES)
    case Purge(busy) => DoPurge(c, o, busy)
  }

  /** One public call: every call but `releaseData` first makes sure that the index has been rebuilt. */
  function Step(st: State, call: Call, o: Outcome, maxSize: nat): (State, Reply) {
    var (ready, ok) := if call.ReleaseData? then (st, true) else Initialize(st, o, maxSize);
    if !ok then (ready, NO)
    else
      var (c, reply) := Do(ready.cache, call, Reach(o, ready.ready), maxSize);
      (ready.(cache := c), reply)
  }

  datatype Request = Request(call: Call, o: Outcome)

  /** The state after a sequence of calls. */
  function After(st: State, rs: seq<Request>, maxSize: nat): State
    decreases |rs|
  {
    if rs == [] then st else After(Step(st, rs[0].call, rs[0].o, maxSize).0, rs[1..], maxSize)
  }
}
