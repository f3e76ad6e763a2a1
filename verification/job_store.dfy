/**
 * `MongoJobStore` of `job_store_util.py` over an abstract collection: a map
 * from job id to job document. The clock is a parameter `now` (an integer
 * number of seconds); the collection's atomicity, indexes and TTL sweep are
 * not modelled.
 */
module JobStore {
  import opened Wrappers
  import opened JobStatusEnums

  /**
   * A value stored under a key of `settings`, `input`, `output` or `error`:
   * any JSON-like value, including floats (as exact reals) and nested
   * documents. The store never looks inside a value.
   */
  datatype Value =
    | Null
    | Bool(b: bool)
    | Int(i: int)
    | Real(r: real)
    | Str(s: string)
    | List(items: seq<Value>)
    | Doc(fields: map<string, Value>)

  /** A free-form sub-document; keys are opaque strings. */
  type Doc = map<string, Value>

  /** The job document `create_job` inserts (`_id` is `id`). */
  datatype Job = Job(
    id: string,
    status: JobStatus,
    step: JobStep,
    progress: int,
    createdAt: int,
    updatedAt: int,
    expiresAt: int,
    error: Doc,
    settings: Doc,
    input: Doc,
    output: Doc)

  /** The `jobs` collection. */
  type Store = map<string, Job>

  /** `MongoJobStore.default_ttl_hours`. */
  const DefaultTtlHours: int := 24

  const SecondsPerHour: int := 3600

  /** Why a store operation raised. */
  datatype StoreError =
    | DuplicateKey(id: string)  // `insert_one` on an id already present
    | NotFound(id: string)      // the `KeyError` of `update_job`

  /**
   * `create_job`: inserts and returns a job at CREATED / VALIDATE / 0 with
   * empty error, input and output, the given settings (or none), created and
   * updated `now`, expiring `ttlHours` later. An id already present is a
   * duplicate-key error that leaves the collection as it was.
   */
  function CreateJob(store: Store, id: string, settings: Option<Doc>, now: int, ttlHours: int)
    : (r: (Store, Result<Job, StoreError>))
    ensures id in store ==> r.0 == store && r.1 == Failure(DuplicateKey(id))
    ensures id !in store ==>
              && r.1.Success?
              && r.0 == store[id := r.1.value]
              && var j := r.1.value;
              && j.id == id
              && j.status == Created && j.step == Validate && j.progress == 0
              && j.createdAt == now && j.updatedAt == now
              && j.expiresAt == now + ttlHours * SecondsPerHour
              && j.error == map[] && j.input == map[] && j.output == map[]
              && (settings.Some? ==> j.settings == settings.value)
              && (settings.None? ==> j.settings == map[])
  {
    if id in store then
      (store, Failure(DuplicateKey(id)))
    else
      var job := Job(id, Created, Validate, 0, now, now, now + ttlHours * SecondsPerHour,
                     map[], settings.GetOr(map[]), map[], map[]);
      (store[id := job], Success(job))
  }

  /** Every job is stored under its own `_id`, as a Mongo collection keeps it. */
  predicate Valid(store: Store) {
    forall k :: k in store ==> store[k].id == k
  }

  /** `get_job`: the stored document, or `None`; in a valid store its `_id` is the one asked for. */
  function GetJob(store: Store, id: string): (r: Option<Job>)
    ensures r.Some? <==> id in store
    ensures r.Some? ==> r.value == store[id]
    ensures Valid(store) && r.Some? ==> r.value.id == id
  {
    if id in store then Some(store[id]) else None
  }

  /** The optional keyword arguments of `update_job`. */
  datatype JobUpdate = JobUpdate(
    status: Option<JobStatus>,
    step: Option<JobStep>,
    progress: Option<int>,
    error: Option<Doc>,
    inputUpdate: Option<Doc>,
    outputUpdate: Option<Doc>)

  /** An `update_job` call with no keyword arguments. */
  const NoChanges := JobUpdate(None, None, None, None, None, None)

  /**
   * The `$set` of `input.<k>` / `output.<k>` for every key of the update: the
   * keys named are overwritten, every other key is kept; no update (or an
   * empty one) keeps the document as it is.
   */
  function MergeDoc(base: Doc, update: Option<Doc>): (r: Doc)
    ensures r.Keys == base.Keys + (if update.Some? then update.value.Keys else {})
    ensures update.Some? ==> forall k :: k in update.value ==> r[k] == update.value[k]
    ensures forall k :: k in base && (update.None? || k !in update.value) ==> r[k] == base[k]
  {
    if update.Some? && update.value != map[] then base + update.value else base
  }

  /** The job `update_job` writes back, given the stored one. */
  function ApplyUpdate(j: Job, now: int, u: JobUpdate): Job {
    j.(status := u.status.GetOr(j.status),
       step := u.step.GetOr(j.step),
       progress := u.progress.GetOr(j.progress),
       error := u.error.GetOr(j.error),
       updatedAt := now,
       input := MergeDoc(j.input, u.inputUpdate),
       output := MergeDoc(j.output, u.outputUpdate))
  }

  /**
   * `update_job`: on a stored id, writes the job back with `updatedAt = now`,
   * each of status, step, progress and error replaced exactly when given
   * (error as a whole map), input and output merged key by key, and id,
   * creation time, expiry and settings untouched; returns the written job,
   * and no other job changes. On an absent id nothing changes and the call
   * fails with `KeyError`.
   */
  function UpdateJob(store: Store, id: string, now: int, u: JobUpdate)
    : (r: (Store, Result<Job, StoreError>))
    ensures id !in store ==> r.0 == store && r.1 == Failure(NotFound(id))
    ensures id in store ==>
              && r.1.Success?
              && r.0 == store[id := r.1.value]
              && var old_, j := store[id], r.1.value;
              && j.id == old_.id && j.createdAt == old_.createdAt
              && j.expiresAt == old_.expiresAt && j.settings == old_.settings
              && j.updatedAt == now
              && (u.status.Some? ==> j.status == u.status.value)
              && (u.status.None? ==> j.status == old_.status)
              && (u.step.Some? ==> j.step == u.step.value)
              && (u.step.None? ==> j.step == old_.step)
              && (u.progress.Some? ==> j.progress == u.progress.value)
              && (u.progress.None? ==> j.progress == old_.progress)
              && (u.error.Some? ==> j.error == u.error.value)
              && (u.error.None? ==> j.error == old_.error)
              && j.input == MergeDoc(old_.input, u.inputUpdate)
              && j.output == MergeDoc(old_.output, u.outputUpdate)
  {
    if id !in store then
      (store, Failure(NotFound(id)))
    else
      var j := ApplyUpdate(store[id], now, u);
      (store[id := j], Success(j))
  }

  /** Creating a job keeps every job stored under its own `_id`. */
  lemma CreateJobValid(store: Store, id: string, settings: Option<Doc>, now: int, ttlHours: int)
    requires Valid(store)
    ensures Valid(CreateJob(store, id, settings, now, ttlHours).0)
  {
  }

  /** Updating a job keeps every job stored under its own `_id`. */
  lemma UpdateJobValid(store: Store, id: string, now: int, u: JobUpdate)
    requires Valid(store)
    ensures Valid(UpdateJob(store, id, now, u).0)
  {
  }

  /** With the default TTL of 24 hours a new job expires 86400 seconds after creation. */
  lemma CreateDefaultExpiry(store: Store, id: string, settings: Option<Doc>, now: int)
    requires id !in store
    ensures CreateJob(store, id, settings, now, DefaultTtlHours).1.value.expiresAt == now + 86400
  {
  }

  /** A created job can be read back as it was returned. */
  lemma CreateThenGet(store: Store, id: string, settings: Option<Doc>, now: int, ttlHours: int)
    requires id !in store
    ensures var r := CreateJob(store, id, settings, now, ttlHours);
            GetJob(r.0, id) == Some(r.1.value)
  {
  }

  /** An update can be read back as it was returned. */
  lemma UpdateThenGet(store: Store, id: string, now: int, u: JobUpdate)
    requires id in store
    ensures var r := UpdateJob(store, id, now, u);
            GetJob(r.0, id) == Some(r.1.value)
  {
  }

  /** An update with no arguments still refreshes `updatedAt`, and only that. */
  lemma EmptyUpdateTouches(store: Store, id: string, now: int)
    requires id in store
    ensures UpdateJob(store, id, now, NoChanges).1 == Success(store[id].(updatedAt := now))
  {
  }

  /** Updating only the progress leaves input and output as they were. */
  lemma ProgressOnlyUpdate(store: Store, id: string, now: int, p: int)
    requires id in store
    ensures var j := UpdateJob(store, id, now, NoChanges.(progress := Some(p))).1.value;
            && j.progress == p
            && j.input == store[id].input && j.output == store[id].output
  {
  }

  /** Repeating an update at the same time changes nothing more. */
  lemma UpdateIdempotent(store: Store, id: string, now: int, u: JobUpdate)
    ensures var once := UpdateJob(store, id, now, u).0;
            UpdateJob(once, id, now, u).0 == once
  {
    if id in store {
      var once := UpdateJob(store, id, now, u).0;
      ApplyUpdateIdempotent(store[id], now, u);
      assert once[id := once[id]] == once;
    }
  }

  /** Applying the same update twice to a job is applying it once. */
  lemma ApplyUpdateIdempotent(j: Job, now: int, u: JobUpdate)
    ensures ApplyUpdate(ApplyUpdate(j, now, u), now, u) == ApplyUpdate(j, now, u)
  {
    MergeIdempotent(j.input, u.inputUpdate);
    MergeIdempotent(j.output, u.outputUpdate);
  }

  /** Merging the same update twice is merging it once. */
  lemma MergeIdempotent(base: Doc, update: Option<Doc>)
    ensures MergeDoc(MergeDoc(base, update), update) == MergeDoc(base, update)
  {
    if update.Some? && update.value != map[] {
      var once := base + update.value;
      assert once + update.value == once;
    }
  }
}
