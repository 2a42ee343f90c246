/** The file transfer: slicing, the handshake, and chunks written, verified, marked and counted by pool
    workers in any interleaving. */
module Transfer {
  import Crc
  import Manifest

  type Data = seq<bv8>

  // ----- slicing -----

  /** Offset of slice `i`, or the end of the file. */
  function Edge(size: nat, chunk: nat, i: nat): (r: nat)
    ensures r <= size
  {
    if i * chunk < size then i * chunk else size
  }

  function SliceCount(size: nat, chunk: nat): nat
    requires chunk > 0
  {
    (size + chunk - 1) / chunk
  }

  lemma EdgeMono(size: nat, chunk: nat, i: nat)
    ensures Edge(size, chunk, i) <= Edge(size, chunk, i + 1) <= size
    ensures Edge(size, chunk, i + 1) - Edge(size, chunk, i) <= chunk
    ensures Edge(size, chunk, 0) == 0
  {
    assert (i + 1) * chunk == i * chunk + chunk;
  }

  function SliceAt(file: Data, chunk: nat, i: nat): Data {
    EdgeMono(|file|, chunk, i);
    file[Edge(|file|, chunk, i)..Edge(|file|, chunk, i + 1)]
  }

  lemma LastEdge(size: nat, chunk: nat)
    requires chunk > 0
    ensures Edge(size, chunk, SliceCount(size, chunk)) == size
    ensures size > 0 ==> SliceCount(size, chunk) > 0 && (SliceCount(size, chunk) - 1) * chunk < size
  {
    var n := SliceCount(size, chunk);
    assert size + chunk - 1 == n * chunk + (size + chunk - 1) % chunk;
    assert (n - 1) * chunk == n * chunk - chunk;
  }

  /** Counts and sizes are kept in 32 bits. */
  const U32_COUNT: nat := 0x1_0000_0000

  datatype Chunk = Chunk(id: nat, totalChunks: nat, payloadSize: nat, crc32: bv32, data: Data, last: bool)

  /** A chunk is slice `i` of the file. */
  predicate IsSlice(file: Data, size: nat, total: nat, i: nat, k: Chunk) {
    && k.id == i && k.totalChunks == total && k.last == (i + 1 == total)
    && k.data == SliceAt(file, size, i) && 0 < |k.data| <= size && k.payloadSize == |k.data| % U32_COUNT
    && k.crc32 == Crc.Checksum(k.data)
  }

  function Joined(cs: seq<Chunk>): Data {
    if cs == [] then [] else Joined(cs[..|cs| - 1]) + cs[|cs| - 1].data
  }

  predicate SlicedTo(file: Data, size: nat, total: nat, cs: seq<Chunk>) {
    && (forall i :: 0 <= i < |cs| ==> IsSlice(file, size, total, i, cs[i]))
    && Joined(cs) == file[..Edge(|file|, size, |cs|)]
  }

  lemma SliceBounds(file: Data, size: nat, i: nat)
    requires size > 0 && i < SliceCount(|file|, size)
    ensures Edge(|file|, size, i) == i * size < |file|
    ensures Edge(|file|, size, i + 1) == if size <= |file| - i * size then i * size + size else |file|
    ensures 0 < |SliceAt(file, size, i)| <= size
  {
    LastEdge(|file|, size);
    var n := SliceCount(|file|, size);
    Before(i, n - 1, size);
    EdgeMono(|file|, size, i);
    assert (i + 1) * size == i * size + size;
    if |file| == 0 { EmptyCount(size); }
  }

  lemma SlicedOn(file: Data, size: nat, total: nat, cs: seq<Chunk>, k: Chunk)
    requires SlicedTo(file, size, total, cs) && IsSlice(file, size, total, |cs|, k)
    ensures SlicedTo(file, size, total, cs + [k])
  {
    var cs' := cs + [k];
    assert cs'[..|cs'| - 1] == cs;
    EdgeMono(|file|, size, |cs|);
    EdgeMono(|file|, size, |cs'|);
    var a, b := Edge(|file|, size, |cs|), Edge(|file|, size, |cs| + 1);
    assert file[..a] + file[a..b] == file[..b];
  }

  /** Where the loop finds slice `i`. */
  lemma SliceHere(file: Data, chunkSize: nat, i: nat)
    requires chunkSize > 0 && i < SliceCount(|file|, chunkSize)
    ensures var offset := i * chunkSize;
            && 0 <= offset < |file|
            && var size := if chunkSize <= |file| - offset then chunkSize else |file| - offset;
               && 0 < size <= chunkSize && offset + size <= |file|
               && file[offset..offset + size] == SliceAt(file, chunkSize, i)
  {
    SliceBounds(file, chunkSize, i);
  }

  lemma MadeSlice(file: Data, chunkSize: nat, total: nat, i: nat, k: Chunk)
    requires chunkSize > 0 && i < SliceCount(|file|, chunkSize)
    requires k.id == i && k.totalChunks == total && k.last == (i == total - 1)
    requires k.data == SliceAt(file, chunkSize, i) && k.payloadSize == |k.data| % U32_COUNT && k.crc32 == Crc.Checksum(k.data)
    ensures IsSlice(file, chunkSize, total, i, k)
  {
    SliceBounds(file, chunkSize, i);
  }

  /** One turn of the loop. */
  method CutSlice(file: Data, chunkSize: nat, total: nat, i: nat) returns (k: Chunk)
    requires chunkSize > 0 && i < SliceCount(|file|, chunkSize)
    ensures IsSlice(file, chunkSize, total, i, k)
  {
    SliceHere(file, chunkSize, i);
    var offset := i * chunkSize;
    var size := if chunkSize <= |file| - offset then chunkSize else |file| - offset;
    var data := file[offset..offset + size];
    var crc := Crc.Crc32(data);
    k := Chunk(i, total, size % U32_COUNT, crc, data, i == total - 1);
    MadeSlice(file, chunkSize, total, i, k);
  }

  /** `Chunker::slice`: the slices are numbered in order, carry their checksums, and join to the beginning
      of the file that the 32-bit count reaches. */
  method Slice(file: Data, chunkSize: nat) returns (chunks: seq<Chunk>)
    requires chunkSize > 0
    ensures |chunks| == SliceCount(|file|, chunkSize) % U32_COUNT
    ensures forall i :: 0 <= i < |chunks| ==> IsSlice(file, chunkSize, |chunks|, i, chunks[i])
    ensures Joined(chunks) == file[..Edge(|file|, chunkSize, |chunks|)]
  {
    chunks := [];
    EdgeMono(|file|, chunkSize, 0);
    if file == [] {
      EmptyCount(chunkSize);
      return;
    }
    var total := (|file| + chunkSize - 1) / chunkSize % U32_COUNT;
    assert total == SliceCount(|file|, chunkSize) % U32_COUNT <= SliceCount(|file|, chunkSize);
    for i := 0 to total
      invariant |chunks| == i
      invariant SlicedTo(file, chunkSize, total, chunks)
    {
      var k := CutSlice(file, chunkSize, total, i);
      SlicedOn(file, chunkSize, total, chunks, k);
      chunks := chunks + [k];
    }
  }

  /** The edges reach the end of the file with the last slice and not before. */
  lemma EndEdge(size: nat, chunk: nat, m: nat)
    requires chunk > 0 && m <= SliceCount(size, chunk)
    ensures Edge(size, chunk, m) == size <==> m == SliceCount(size, chunk)
  {
    LastEdge(size, chunk);
    if m < SliceCount(size, chunk) {
      if size == 0 { EmptyCount(chunk); }
      Before(m, SliceCount(size, chunk) - 1, chunk);
    }
  }

  lemma PrefixIsAll(file: Data, n: nat)
    requires n <= |file|
    ensures file[..n] == file <==> n == |file|
  {
  }

  /** The slices join to the whole file exactly when their number fits 32 bits. */
  lemma WholeFileIff(file: Data, chunkSize: nat, chunks: seq<Chunk>)
    requires chunkSize > 0 && |chunks| == SliceCount(|file|, chunkSize) % U32_COUNT
    requires Joined(chunks) == file[..Edge(|file|, chunkSize, |chunks|)]
    ensures Joined(chunks) == file <==> SliceCount(|file|, chunkSize) < U32_COUNT
  {
    EndEdge(|file|, chunkSize, |chunks|);
    PrefixIsAll(file, Edge(|file|, chunkSize, |chunks|));
  }

  lemma Before(i: nat, n: nat, chunk: nat)
    requires i <= n
    ensures i * chunk <= n * chunk
  {
  }

  lemma EmptyCount(chunk: nat)
    requires chunk > 0
    ensures SliceCount(0, chunk) == 0
  {
  }

  /** Every byte of the file lies in exactly one slice: slices cover the file and never overlap. */
  lemma OneSlice(size: nat, chunk: nat, p: nat, i: nat)
    requires chunk > 0 && p < size
    ensures p / chunk < SliceCount(size, chunk)
    ensures Edge(size, chunk, i) <= p < Edge(size, chunk, i + 1) <==> i == p / chunk
  {
    var q := p / chunk;
    LastEdge(size, chunk);
    var n := SliceCount(size, chunk);
    assert q * chunk <= p < (q + 1) * chunk by { assert p == q * chunk + p % chunk; assert (q + 1) * chunk == q * chunk + chunk; }
    if n <= q { Before(n, q, chunk); }
    if i < q { Before(i + 1, q, chunk); }
    if i > q { Before(q + 1, i, chunk); }
  }

  // ----- the transfer as interleaved steps -----

  const CHUNK: nat := 2097152

  datatype Option<T> = None | Some(value: T)

  /** Compress-then-encrypt under a chunk number, the inverse, which may fail, and the checksum: any
      function of the data serves, `Crc.Checksum` among them. */
  datatype Codec = Codec(seal: (nat, Data) -> Data, unseal: (nat, Data) -> Option<Data>, sum: Data -> bv32)

  ghost predicate Inverse(c: Codec) {
    forall id: nat, d: Data :: c.unseal(id, c.seal(id, d)) == Some(d)
  }

  /** How far a worker is with a chunk: not started, `done` bytes written, bit set, counted, or given up. */
  datatype Phase = Queued | Writing(done: nat) | Marked | Counted | Dropped

  /** A chunk message handed to the pool. */
  datatype Job = Job(id: nat, size: nat, crc32: bv32, payload: Data, phase: Phase)

  /** The receiver's handshake: none yet, `expectedChunks_` set, manifest filled in, file mapped and
      acknowledged. */
  datatype Handshake = Idle | Claimed | Listed | Mapped

  /** Receiver state, the answers given to repeated handshakes (`hollow`: before there was a manifest;
      `early`: before the file was mapped), whether the sender has an acknowledgement, and the jobs
      delivered so far. */
  datatype State = State(
    hs: Handshake, hollow: bool, early: bool, acked: bool, expected: nat, view: Data, bits: seq<bool>,
    received: nat, complete: bool, jobs: seq<Job>)

  /** The steps of one transfer. A worker copies into the shared view any number of bytes at a time. */
  datatype Step =
    | Claim | List | MapView | Again | AckArrives | Deliver(id: nat)
    | Begin(j: nat) | Put(j: nat, n: nat) | Mark(j: nat) | Count(j: nat)

  function Total(file: Data): nat { SliceCount(|file|, CHUNK) }

  function Initial(): State { State(Idle, false, false, false, 0, [], [], 0, false, []) }

  predicate Enabled(file: Data, c: Codec, s: State, e: Step) {
    match e
    case Claim => s.hs.Idle?
    case List => s.hs.Claimed?
    case MapView => s.hs.Listed?
    case Again => s.expected > 0
    case AckArrives => s.hs.Mapped? || s.early
    case Deliver(id) => s.acked && id < Total(file)
    case Begin(j) => j < |s.jobs| && s.jobs[j].phase.Queued?
    case Put(j, n) =>
      && j < |s.jobs| && s.jobs[j].phase.Writing?
      && var job := s.jobs[j]; var d := c.unseal(job.id, job.payload);
      && d.Some? && job.phase.done + n <= |d.value| && job.id * CHUNK + |d.value| <= |s.view|
    case Mark(j) =>
      && j < |s.jobs| && s.jobs[j].phase.Writing?
      && var job := s.jobs[j]; var d := c.unseal(job.id, job.payload);
      && d.Some? && job.phase.done == |d.value|
    case Count(j) => j < |s.jobs| && s.jobs[j].phase.Marked?
  }

  function SetPhase(s: State, j: nat, p: Phase): State
    requires j < |s.jobs|
  {
    s.(jobs := s.jobs[j := s.jobs[j].(phase := p)])
  }

  /** Copy the bytes `k..k + n` of a piece that belongs at `at` into the view. */
  function Patch(view: Data, at: nat, d: Data, k: nat, n: nat): Data
    requires k + n <= |d| && at + |d| <= |view|
  {
    seq(|view|, p requires 0 <= p < |view| => if at + k <= p < at + k + n then d[p - at] else view[p])
  }

  function NewJob(file: Data, c: Codec, id: nat): Job {
    var d := SliceAt(file, CHUNK, id);
    Job(id, |d|, c.sum(d), c.seal(id, d), Queued)
  }

  function Next(file: Data, c: Codec, s: State, e: Step): State
    requires Enabled(file, c, s, e)
  {
    match e
    case Claim => s.(hs := Claimed, expected := Total(file))
    case List => s.(hs := Listed, bits := seq(Total(file), i => false), received := 0)
    case MapView => s.(hs := Mapped, view := seq(|file|, i => 0))
    case Again => s.(hollow := s.hollow || s.hs.Claimed?, early := s.early || s.hs.Listed?)
    case AckArrives => s.(acked := true)
    case Deliver(id) => s.(jobs := s.jobs + [NewJob(file, c, id)])
    case Begin(j) =>
      var job := s.jobs[j];
      if s.view == [] || job.id * CHUNK + job.size > |s.view| then SetPhase(s, j, Dropped)
      else
        var d := c.unseal(job.id, job.payload);
        SetPhase(s, j, if d.None? || |d.value| > job.size then Dropped else Writing(0))
    case Put(j, n) =>
      var job := s.jobs[j];
      var k := job.phase.done;
      var d := c.unseal(job.id, job.payload).value;
      SetPhase(s.(view := Patch(s.view, job.id * CHUNK, d, k, n)), j, Writing(k + n))
    case Mark(j) =>
      var job := s.jobs[j];
      var at := job.id * CHUNK;
      if at + job.size > |s.view| || job.id >= |s.bits| || c.sum(s.view[at..at + job.size]) != job.crc32
      then SetPhase(s, j, Dropped)
      else SetPhase(s.(bits := s.bits[job.id := true]), j, Marked)
    case Count(j) =>
      SetPhase(s.(received := s.received + 1, complete := s.complete || s.received + 1 == s.expected), j, Counted)
  }

  // ----- the invariant -----

  /** Bytes of its slice that a job has put in the view. */
  function Progress(job: Job): nat {
    match job.phase
    case Writing(done) => done
    case Marked => job.size
    case Counted => job.size
    case _ => 0
  }

  predicate Verified(job: Job) { job.phase.Marked? || job.phase.Counted? }

  /** A job carries its piece of the file, sealed, with its checksum. */
  predicate Honest(file: Data, c: Codec, job: Job) {
    && job.id * CHUNK + job.size <= |file|
    && var d := file[job.id * CHUNK..job.id * CHUNK + job.size];
    && 0 < job.size == (if CHUNK <= |file| - job.id * CHUNK then CHUNK else |file| - job.id * CHUNK)
    && job.payload == c.seal(job.id, d) && job.crc32 == c.sum(d)
  }

  predicate Landed(file: Data, view: Data, at: nat, n: nat) {
    n > 0 ==> at + n <= |file| && |view| == |file| && forall p :: at <= p < at + n ==> view[p] == file[p]
  }

  predicate JobOk(file: Data, c: Codec, s: State, job: Job) {
    && Honest(file, c, job) && Progress(job) <= job.size
    && Landed(file, s.view, job.id * CHUNK, Progress(job))
    && job.id < |s.bits| && (Verified(job) ==> s.bits[job.id])
    && (if job.phase.Dropped? then s.early else job.phase.Queued? || s.hs.Mapped?)
  }

  predicate JobsOk(file: Data, c: Codec, s: State) {
    forall j :: 0 <= j < |s.jobs| ==> JobOk(file, c, s, s.jobs[j])
  }

  /** A set bit is owed to some verified job. */
  predicate Witnessed(s: State) {
    forall i :: 0 <= i < |s.bits| && s.bits[i] ==> exists j :: 0 <= j < |s.jobs| && s.jobs[j].id == i && Verified(s.jobs[j])
  }

  function Tally(jobs: seq<Job>): nat {
    if jobs == [] then 0 else Tally(jobs[1..]) + if jobs[0].phase.Counted? then 1 else 0
  }

  predicate Inv(file: Data, c: Codec, s: State) {
    && (s.hs.Idle? || s.hs.Claimed? ==> !s.early && s.bits == [])
    && (s.jobs != [] ==> s.acked) && (s.acked ==> s.hs.Mapped? || s.early)
    && (s.hs.Listed? || s.hs.Mapped? ==> |s.bits| == Total(file))
    && |s.view| == (if s.hs.Mapped? then |file| else 0)
    && s.expected == (if s.hs.Idle? then 0 else Total(file))
    && JobsOk(file, c, s) && Witnessed(s)
    && s.received == Tally(s.jobs)
    && s.complete == (0 < s.expected <= s.received)
  }

  lemma SliceLength(file: Data, id: nat)
    requires id < Total(file)
    ensures Edge(|file|, CHUNK, id) == id * CHUNK
    ensures id * CHUNK + |SliceAt(file, CHUNK, id)| <= |file|
    ensures SliceAt(file, CHUNK, id) == file[id * CHUNK..id * CHUNK + |SliceAt(file, CHUNK, id)|]
    ensures 0 < |SliceAt(file, CHUNK, id)|
  {
    SliceBounds(file, CHUNK, id);
  }

  lemma {:induction false} TallySet(jobs: seq<Job>, j: nat, job: Job)
    requires j < |jobs| && !jobs[j].phase.Counted?
    ensures Tally(jobs[j := job]) == Tally(jobs) + if job.phase.Counted? then 1 else 0
  {
    var js := jobs[j := job];
    if j == 0 {
      assert js[1..] == jobs[1..];
    } else {
      assert js[1..] == jobs[1..][j - 1 := job];
      TallySet(jobs[1..], j - 1, job);
    }
  }

  lemma {:induction false} TallyPush(jobs: seq<Job>, job: Job)
    ensures Tally(jobs + [job]) == Tally(jobs) + if job.phase.Counted? then 1 else 0
  {
    if jobs == [] {
      assert jobs + [job] == [job];
    } else {
      assert (jobs + [job])[1..] == jobs[1..] + [job];
      TallyPush(jobs[1..], job);
    }
  }

  /** No byte that is in place is spoilt. */
  predicate Spares(file: Data, view: Data, view': Data) {
    |view'| == |view| && forall q :: 0 <= q < |view| && q < |file| && view[q] == file[q] ==> view'[q] == file[q]
  }

  /** Changing one job's phase keeps the invariant's clauses about the other jobs. */
  lemma PhaseKeeps(file: Data, c: Codec, s: State, s': State, j: nat, p: Phase)
    requires j < |s.jobs| && JobsOk(file, c, s) && Witnessed(s) && s'.hs == s.hs && s'.early == s.early
    requires s'.jobs == s.jobs[j := s.jobs[j].(phase := p)]
    requires JobOk(file, c, s', s'.jobs[j])
    requires |s'.bits| == |s.bits| && forall i :: 0 <= i < |s.bits| ==> (s.bits[i] ==> s'.bits[i])
    requires forall i :: 0 <= i < |s.bits| && s'.bits[i] && !s.bits[i] ==> i == s.jobs[j].id && Verified(s'.jobs[j])
    requires Verified(s.jobs[j]) ==> Verified(s'.jobs[j])
    requires Spares(file, s.view, s'.view)
    ensures JobsOk(file, c, s') && Witnessed(s')
  {
    forall k | 0 <= k < |s'.jobs| ensures JobOk(file, c, s', s'.jobs[k]) {
      if k != j { assert JobOk(file, c, s, s.jobs[k]); }
    }
    forall i | 0 <= i < |s'.bits| && s'.bits[i]
      ensures exists k :: 0 <= k < |s'.jobs| && s'.jobs[k].id == i && Verified(s'.jobs[k])
    {
      if s.bits[i] {
        var k :| 0 <= k < |s.jobs| && s.jobs[k].id == i && Verified(s.jobs[k]);
        assert s'.jobs[k].id == i && Verified(s'.jobs[k]);
      } else {
        assert s'.jobs[j].id == i && Verified(s'.jobs[j]);
      }
    }
  }

  /** What an honest job decodes to. */
  lemma Decodes(file: Data, c: Codec, job: Job)
    requires Inverse(c) && Honest(file, c, job)
    ensures job.id * CHUNK + job.size <= |file| && 0 < job.size
    ensures c.unseal(job.id, job.payload) == Some(file[job.id * CHUNK..job.id * CHUNK + job.size])
    ensures job.crc32 == c.sum(file[job.id * CHUNK..job.id * CHUNK + job.size])
  {
  }

  /** A job's next phase is in order when its bytes and its bit are. */
  lemma JobMoves(file: Data, c: Codec, s: State, s': State, j: nat, p: Phase)
    requires j < |s.jobs| && Inv(file, c, s) && !s.jobs[j].phase.Counted?
    requires s'.jobs == s.jobs[j := s.jobs[j].(phase := p)]
    requires s'.hs == s.hs && s'.early == s.early && (if p.Dropped? then s.early else p.Queued? || s.hs.Mapped?)
    requires Progress(s'.jobs[j]) <= s.jobs[j].size
    requires Landed(file, s'.view, s.jobs[j].id * CHUNK, Progress(s'.jobs[j]))
    requires |s'.bits| == |s.bits| && (Verified(s'.jobs[j]) ==> s.jobs[j].id < |s'.bits| && s'.bits[s.jobs[j].id])
    ensures JobOk(file, c, s', s'.jobs[j])
    ensures Tally(s'.jobs) == s.received + if p.Counted? then 1 else 0
  {
    assert JobOk(file, c, s, s.jobs[j]);
    TallySet(s.jobs, j, s'.jobs[j]);
  }

  /** Copying more bytes of a slice into its place extends what has landed and spoils nothing. */
  lemma PatchLands(file: Data, view: Data, at: nat, d: Data, k: nat, n: nat)
    requires |view| == |file| && Landed(file, view, at, k) && k + n <= |d| && at + |d| <= |file| && d == file[at..at + |d|]
    ensures Landed(file, Patch(view, at, d, k, n), at, k + n)
    ensures Spares(file, view, Patch(view, at, d, k, n))
  {
  }

  /** Steps that only copy bytes into the view keep the invariant. */
  lemma CopyKeeps(file: Data, c: Codec, s: State, view: Data, j: nat, done: nat)
    requires Inv(file, c, s) && s.hs.Mapped? && j < |s.jobs| && !Verified(s.jobs[j]) && done <= s.jobs[j].size
    requires Spares(file, s.view, view) && Landed(file, view, s.jobs[j].id * CHUNK, done)
    ensures Inv(file, c, SetPhase(s.(view := view), j, Writing(done)))
  {
    var s' := SetPhase(s.(view := view), j, Writing(done));
    JobMoves(file, c, s, s', j, Writing(done));
    PhaseKeeps(file, c, s, s', j, Writing(done));
  }

  /** A chunk that a worker takes up before the file is mapped is dropped; after that, none is. */
  lemma BeginKeeps(file: Data, c: Codec, s: State, j: nat)
    requires Inverse(c) && Inv(file, c, s) && Enabled(file, c, s, Begin(j))
    ensures Inv(file, c, Next(file, c, s, Begin(j)))
    ensures Next(file, c, s, Begin(j)) == SetPhase(s, j, if s.hs.Mapped? then Writing(0) else Dropped)
  {
    assert JobOk(file, c, s, s.jobs[j]);
    Decodes(file, c, s.jobs[j]);
    if s.hs.Mapped? {
      assert Next(file, c, s, Begin(j)) == SetPhase(s.(view := s.view), j, Writing(0));
      CopyKeeps(file, c, s, s.view, j, 0);
    } else {
      var s' := SetPhase(s, j, Dropped);
      JobMoves(file, c, s, s', j, Dropped);
      PhaseKeeps(file, c, s, s', j, Dropped);
    }
  }

  /** A copy step writes bytes of the job's slice where they belong. */
  lemma PutLands(file: Data, c: Codec, s: State, j: nat, n: nat) returns (view: Data)
    requires Inverse(c) && Enabled(file, c, s, Put(j, n)) && JobOk(file, c, s, s.jobs[j]) && |s.view| == |file|
    ensures s.jobs[j].phase.done + n <= s.jobs[j].size
    ensures Spares(file, s.view, view) && Landed(file, view, s.jobs[j].id * CHUNK, s.jobs[j].phase.done + n)
    ensures Next(file, c, s, Put(j, n)) == SetPhase(s.(view := view), j, Writing(s.jobs[j].phase.done + n))
  {
    var job := s.jobs[j];
    Decodes(file, c, job);
    PatchLands(file, s.view, job.id * CHUNK, c.unseal(job.id, job.payload).value, job.phase.done, n);
    view := Patch(s.view, job.id * CHUNK, c.unseal(job.id, job.payload).value, job.phase.done, n);
  }

  lemma WritingIsMapped(file: Data, c: Codec, s: State, j: nat)
    requires Inv(file, c, s) && j < |s.jobs| && s.jobs[j].phase.Writing?
    ensures s.hs.Mapped? && |s.view| == |file| && JobOk(file, c, s, s.jobs[j])
  {
    assert JobOk(file, c, s, s.jobs[j]);
  }

  lemma PutKeeps(file: Data, c: Codec, s: State, j: nat, n: nat) returns (t: State)
    requires Inverse(c) && Inv(file, c, s) && Enabled(file, c, s, Put(j, n))
    ensures t == Next(file, c, s, Put(j, n)) && Inv(file, c, t)
    ensures t.jobs == SetPhase(s, j, Writing(s.jobs[j].phase.done + n)).jobs
  {
    WritingIsMapped(file, c, s, j);
    var view := PutLands(file, c, s, j, n);
    CopyKeeps(file, c, s, view, j, s.jobs[j].phase.done + n);
    t := SetPhase(s.(view := view), j, Writing(s.jobs[j].phase.done + n));
  }

  /** The checksum test passes on a slice that is in place. */
  lemma MarkPasses(file: Data, c: Codec, s: State, j: nat)
    requires Inverse(c) && Inv(file, c, s) && Enabled(file, c, s, Mark(j))
    ensures Landed(file, s.view, s.jobs[j].id * CHUNK, s.jobs[j].size)
    ensures s.jobs[j].id < |s.bits|
    ensures Next(file, c, s, Mark(j)) == SetPhase(s.(bits := s.bits[s.jobs[j].id := true]), j, Marked)
  {
    var job := s.jobs[j];
    assert JobOk(file, c, s, job);
    Decodes(file, c, job);
    var at := job.id * CHUNK;
    assert job.phase.done == |file[at..at + job.size]| == job.size;
    SameRange(file, s.view, at, job.size);
  }

  lemma SameRange(file: Data, view: Data, at: nat, n: nat)
    requires n > 0 && Landed(file, view, at, n)
    ensures view[at..at + n] == file[at..at + n]
  {
  }

  lemma MarkKeeps(file: Data, c: Codec, s: State, j: nat)
    requires Inverse(c) && Inv(file, c, s) && Enabled(file, c, s, Mark(j))
    ensures Inv(file, c, Next(file, c, s, Mark(j)))
    ensures Next(file, c, s, Mark(j)).jobs == SetPhase(s, j, Marked).jobs
  {
    MarkPasses(file, c, s, j);
    var s' := SetPhase(s.(bits := s.bits[s.jobs[j].id := true]), j, Marked);
    JobMoves(file, c, s, s', j, Marked);
    PhaseKeeps(file, c, s, s', j, Marked);
  }

  lemma CountKeeps(file: Data, c: Codec, s: State, j: nat)
    requires Inv(file, c, s) && Enabled(file, c, s, Count(j))
    ensures Inv(file, c, Next(file, c, s, Count(j)))
  {
    assert JobOk(file, c, s, s.jobs[j]);
    var s' := Next(file, c, s, Count(j));
    JobMoves(file, c, s, s', j, Counted);
    PhaseKeeps(file, c, s, s', j, Counted);
  }

  lemma NewJobOk(file: Data, c: Codec, s: State, id: nat)
    requires id < Total(file) == |s.bits|
    ensures JobOk(file, c, s, NewJob(file, c, id))
  {
    SliceLength(file, id);
    SliceBounds(file, CHUNK, id);
  }

  /** A new job keeps the old ones and the bits. */
  lemma PushKeeps(file: Data, c: Codec, s: State, job: Job)
    requires JobsOk(file, c, s) && Witnessed(s) && JobOk(file, c, s, job)
    ensures var s' := s.(jobs := s.jobs + [job]); JobsOk(file, c, s') && Witnessed(s')
  {
    var s' := s.(jobs := s.jobs + [job]);
    forall k | 0 <= k < |s'.jobs| ensures JobOk(file, c, s', s'.jobs[k]) {
      if k < |s.jobs| { assert JobOk(file, c, s, s.jobs[k]); }
    }
    forall i | 0 <= i < |s'.bits| && s'.bits[i]
      ensures exists k :: 0 <= k < |s'.jobs| && s'.jobs[k].id == i && Verified(s'.jobs[k])
    {
      var k :| 0 <= k < |s.jobs| && s.jobs[k].id == i && Verified(s.jobs[k]);
      assert s'.jobs[k].id == i && Verified(s'.jobs[k]);
    }
  }

  lemma DeliverKeeps(file: Data, c: Codec, s: State, id: nat)
    requires Inv(file, c, s) && Enabled(file, c, s, Deliver(id))
    ensures Inv(file, c, Next(file, c, s, Deliver(id)))
  {
    NewJobOk(file, c, s, id);
    TallyPush(s.jobs, NewJob(file, c, id));
    PushKeeps(file, c, s, NewJob(file, c, id));
  }

  /** Every step keeps the invariant; in particular a chunk is dropped only after an early answer. */
  lemma NextKeeps(file: Data, c: Codec, s: State, e: Step)
    requires Inverse(c) && Inv(file, c, s) && Enabled(file, c, s, e)
    ensures Inv(file, c, Next(file, c, s, e))
  {
    match e
    case Deliver(id) => DeliverKeeps(file, c, s, id);
    case Begin(j) => BeginKeeps(file, c, s, j);
    case Put(j, n) => var _ := PutKeeps(file, c, s, j, n);
    case Mark(j) => MarkKeeps(file, c, s, j);
    case Count(j) => CountKeeps(file, c, s, j);
    case _ =>
  }

  // ----- whole runs -----

  /** `t` is what the steps `es`, each enabled in its turn, make of `s`. */
  predicate Leads(file: Data, c: Codec, s: State, es: seq<Step>, t: State)
    decreases |es|
  {
    if es == [] then s == t
    else Enabled(file, c, s, es[0]) && Leads(file, c, Next(file, c, s, es[0]), es[1..], t)
  }

  ghost predicate Reachable(file: Data, c: Codec, t: State) {
    exists es :: Leads(file, c, Initial(), es, t)
  }

  lemma {:induction false} LeadsKeeps(file: Data, c: Codec, s: State, es: seq<Step>, t: State)
    requires Inverse(c) && Inv(file, c, s) && Leads(file, c, s, es, t)
    ensures Inv(file, c, t)
    decreases |es|
  {
    if es != [] {
      NextKeeps(file, c, s, es[0]);
      LeadsKeeps(file, c, Next(file, c, s, es[0]), es[1..], t);
    }
  }

  lemma ReachableOk(file: Data, c: Codec, t: State)
    requires Inverse(c) && Reachable(file, c, t)
    ensures Inv(file, c, t)
  {
    var es :| Leads(file, c, Initial(), es, t);
    LeadsKeeps(file, c, Initial(), es, t);
  }

  lemma {:induction false} LeadsOn(file: Data, c: Codec, s: State, es: seq<Step>, t: State, e: Step)
    requires Leads(file, c, s, es, t) && Enabled(file, c, t, e)
    ensures Leads(file, c, s, es + [e], Next(file, c, t, e))
    decreases |es|
  {
    if es == [] {
      assert (es + [e])[1..] == [];
    } else {
      assert (es + [e])[1..] == es[1..] + [e];
      LeadsOn(file, c, Next(file, c, s, es[0]), es[1..], t, e);
    }
  }

  lemma ReachOn(file: Data, c: Codec, t: State, e: Step)
    requires Reachable(file, c, t) && Enabled(file, c, t, e)
    ensures Reachable(file, c, Next(file, c, t, e))
  {
    var es :| Leads(file, c, Initial(), es, t);
    LeadsOn(file, c, Initial(), es, t, e);
  }

  /** The chunk numbers delivered, in order. */
  function Ids(jobs: seq<Job>): (r: seq<nat>)
    ensures |r| == |jobs|
    ensures forall j :: 0 <= j < |r| ==> r[j] == jobs[j].id
  {
    seq(|jobs|, j requires 0 <= j < |jobs| => jobs[j].id)
  }

  /** Deliveries of chunks other than `x`. */
  function Others(ids: seq<nat>, x: nat): nat {
    if ids == [] then 0 else Others(ids[1..], x) + if ids[0] != x then 1 else 0
  }

  predicate AllSet(bits: seq<bool>) { forall i :: 0 <= i < |bits| ==> bits[i] }

  predicate Delivered(file: Data, s: State) {
    s.view == file && |s.bits| == Total(file) && AllSet(s.bits)
  }

  lemma {:induction false} TallyBound(jobs: seq<Job>, x: nat)
    requires forall j :: 0 <= j < |jobs| && jobs[j].id == x ==> !jobs[j].phase.Counted?
    ensures Tally(jobs) <= Others(Ids(jobs), x)
  {
    if jobs != [] {
      assert Ids(jobs)[1..] == Ids(jobs[1..]);
      TallyBound(jobs[1..], x);
    }
  }

  /** A byte whose chunk has its bit set is in place. */
  lemma BitIsWritten(file: Data, c: Codec, s: State, p: nat, i: nat)
    requires Inverse(c) && Inv(file, c, s) && p < |file| && |s.view| == |file|
    requires i < |s.bits| && s.bits[i] && i < Total(file) && |s.bits| == Total(file)
    requires Edge(|file|, CHUNK, i) <= p < Edge(|file|, CHUNK, i + 1)
    ensures s.view[p] == file[p]
  {
    var j :| 0 <= j < |s.jobs| && s.jobs[j].id == i && Verified(s.jobs[j]);
    assert JobOk(file, c, s, s.jobs[j]);
    SliceBounds(file, CHUNK, i);
  }

  /** All bits set means that every byte of the file is in place. */
  lemma AllSetIsWhole(file: Data, c: Codec, s: State)
    requires Inverse(c) && Inv(file, c, s) && s.hs.Mapped? && AllSet(s.bits)
    ensures s.view == file
  {
    forall p | 0 <= p < |file| ensures s.view[p] == file[p] {
      var i := p / CHUNK;
      OneSlice(|file|, CHUNK, p, i);
      BitIsWritten(file, c, s, p, i);
    }
  }

  lemma {:induction false} SomeCounted(jobs: seq<Job>)
    requires Tally(jobs) > 0
    ensures exists j :: 0 <= j < |jobs| && jobs[j].phase.Counted?
  {
    if !jobs[0].phase.Counted? {
      SomeCounted(jobs[1..]);
      var j :| 0 <= j < |jobs[1..]| && jobs[1..][j].phase.Counted?;
      assert jobs[j + 1].phase.Counted?;
    }
  }

  /** A complete transfer has mapped its file. */
  lemma CompleteIsMapped(file: Data, c: Codec, s: State)
    requires Inv(file, c, s) && s.complete
    ensures s.hs.Mapped?
  {
    SomeCounted(s.jobs);
    var j :| 0 <= j < |s.jobs| && s.jobs[j].phase.Counted?;
    assert JobOk(file, c, s, s.jobs[j]);
  }

  /** If no chunk can be left out by `Total` deliveries, completion means the whole file arrived. */
  lemma CompleteIsWhole(file: Data, c: Codec, s: State)
    requires Inverse(c) && Reachable(file, c, s) && s.complete
    requires forall x :: 0 <= x < Total(file) ==> Others(Ids(s.jobs), x) < Total(file)
    ensures Delivered(file, s)
  {
    ReachableOk(file, c, s);
    forall x | 0 <= x < Total(file) ensures s.bits[x] {
      if !s.bits[x] {
        forall j | 0 <= j < |s.jobs| && s.jobs[j].id == x ensures !s.jobs[j].phase.Counted? {
          assert JobOk(file, c, s, s.jobs[j]);
        }
        TallyBound(s.jobs, x);
      }
    }
    CompleteIsMapped(file, c, s);
    AllSetIsWhole(file, c, s);
  }

  // ----- exactly when completion can be trusted -----

  predicate AllQueued(jobs: seq<Job>) {
    forall j :: 0 <= j < |jobs| ==> jobs[j].phase.Queued?
  }

  /** The jobs for chunk `x` are in phase `p`; of the others, those before `k` are counted and the rest
      untouched. */
  predicate Worked(jobs: seq<Job>, k: nat, x: nat, p: Phase) {
    forall j :: 0 <= j < |jobs| ==> jobs[j].phase == if jobs[j].id == x then p else if j < k then Counted else Queued
  }

  /** One worker writes a queued job's bytes. */
  lemma WriteOne(file: Data, c: Codec, s: State, j: nat) returns (t: State)
    requires Inverse(c) && Reachable(file, c, s) && s.hs.Mapped? && j < |s.jobs| && s.jobs[j].phase.Queued?
    ensures Reachable(file, c, t) && t.hs.Mapped? && t.jobs == s.jobs[j := s.jobs[j].(phase := Writing(s.jobs[j].size))]
    ensures Enabled(file, c, t, Mark(j))
  {
    ReachableOk(file, c, s);
    BeginKeeps(file, c, s, j);
    ReachOn(file, c, s, Begin(j));
    t := SetPhase(s, j, Writing(0));
    CanPut(file, c, t, j);
    ReachOn(file, c, t, Put(j, t.jobs[j].size));
    t := PutKeeps(file, c, t, j, t.jobs[j].size);
    CanMark(file, c, t, j);
  }

  /** A worker that has begun can copy the whole piece at once. */
  lemma CanPut(file: Data, c: Codec, s: State, j: nat)
    requires Inverse(c) && Inv(file, c, s) && j < |s.jobs| && s.jobs[j].phase == Writing(0)
    ensures Enabled(file, c, s, Put(j, s.jobs[j].size))
  {
    WritingIsMapped(file, c, s, j);
    Decodes(file, c, s.jobs[j]);
  }

  /** A worker that has copied the whole piece can check it. */
  lemma CanMark(file: Data, c: Codec, s: State, j: nat)
    requires Inverse(c) && Inv(file, c, s) && j < |s.jobs| && s.jobs[j].phase == Writing(s.jobs[j].size)
    ensures Enabled(file, c, s, Mark(j))
  {
    WritingIsMapped(file, c, s, j);
    Decodes(file, c, s.jobs[j]);
  }

  /** One worker takes a job from the queue to the counter. */
  lemma WorkOne(file: Data, c: Codec, s: State, j: nat) returns (t: State)
    requires Inverse(c) && Reachable(file, c, s) && s.hs.Mapped? && j < |s.jobs| && s.jobs[j].phase.Queued?
    ensures Reachable(file, c, t) && t.hs.Mapped? && t.jobs == s.jobs[j := s.jobs[j].(phase := Counted)]
  {
    t := WriteOne(file, c, s, j);
    ReachableOk(file, c, t);
    MarkKeeps(file, c, t, j);
    ReachOn(file, c, t, Mark(j));
    t := Next(file, c, t, Mark(j));
    ReachOn(file, c, t, Count(j));
    t := Next(file, c, t, Count(j));
  }

  lemma {:induction false} WorkAll(file: Data, c: Codec, s: State, k: nat, x: nat, p: Phase) returns (t: State)
    requires Inverse(c) && Reachable(file, c, s) && s.hs.Mapped? && k <= |s.jobs| && Worked(s.jobs, k, x, p)
    ensures Reachable(file, c, t) && Ids(t.jobs) == Ids(s.jobs) && Worked(t.jobs, |t.jobs|, x, p)
    decreases |s.jobs| - k
  {
    t := s;
    if k < |s.jobs| {
      if s.jobs[k].id != x {
        t := WorkOne(file, c, s, k);
      }
      t := WorkAll(file, c, t, k + 1, x, p);
    }
  }

  lemma {:induction false} DeliverAll(file: Data, c: Codec, s: State, ids: seq<nat>, k: nat) returns (t: State)
    requires Reachable(file, c, s) && s.acked && forall i :: 0 <= i < |ids| ==> ids[i] < Total(file)
    requires k <= |ids| && Ids(s.jobs) == ids[..k] && AllQueued(s.jobs)
    ensures Reachable(file, c, t) && t.hs == s.hs && Ids(t.jobs) == ids && AllQueued(t.jobs)
    decreases |ids| - k
  {
    t := s;
    if k < |ids| {
      ReachOn(file, c, s, Deliver(ids[k]));
      t := DeliverAll(file, c, Next(file, c, s, Deliver(ids[k])), ids, k + 1);
    }
  }

  lemma Started(file: Data, c: Codec) returns (s: State)
    ensures Reachable(file, c, s) && s.hs.Mapped? && s.acked && s.jobs == []
  {
    assert Leads(file, c, Initial(), [], Initial());
    s := Initial();
    ReachOn(file, c, s, Claim);
    s := Next(file, c, s, Claim);
    ReachOn(file, c, s, List);
    s := Next(file, c, s, List);
    ReachOn(file, c, s, MapView);
    s := Next(file, c, s, MapView);
    ReachOn(file, c, s, AckArrives);
    s := Next(file, c, s, AckArrives);
  }

  lemma {:induction false} WorkedTally(jobs: seq<Job>, x: nat, p: Phase)
    requires Worked(jobs, |jobs|, x, p) && !p.Counted?
    ensures Tally(jobs) == Others(Ids(jobs), x)
  {
    if jobs != [] {
      assert Ids(jobs)[1..] == Ids(jobs[1..]);
      WorkedTally(jobs[1..], x, p);
    }
  }

  /** If `Total` deliveries can leave chunk `x` out, some interleaving completes without it. */
  lemma CompletesWithout(file: Data, c: Codec, ids: seq<nat>, x: nat) returns (t: State)
    requires Inverse(c) && forall i :: 0 <= i < |ids| ==> ids[i] < Total(file)
    requires x < Total(file) <= Others(ids, x)
    ensures Reachable(file, c, t) && Ids(t.jobs) == ids && t.complete && x < |t.bits| && !t.bits[x]
  {
    var s := Started(file, c);
    s := DeliverAll(file, c, s, ids, 0);
    t := WorkAll(file, c, s, 0, x, Queued);
    ReachableOk(file, c, t);
    WorkedTally(t.jobs, x, Queued);
    assert t.jobs != [];
    assert JobOk(file, c, t, t.jobs[0]);
  }

  /** In every run with these deliveries, completion means that the whole file arrived. */
  ghost predicate Trustworthy(file: Data, c: Codec, ids: seq<nat>) {
    forall s :: Reachable(file, c, s) && Ids(s.jobs) == ids && s.complete ==> Delivered(file, s)
  }

  /** The completion counter can be trusted exactly when every chunk is needed to reach the expected count. */
  lemma TrustworthyIff(file: Data, c: Codec, ids: seq<nat>)
    requires Inverse(c) && forall i :: 0 <= i < |ids| ==> ids[i] < Total(file)
    ensures Trustworthy(file, c, ids) <==> forall x :: 0 <= x < Total(file) ==> Others(ids, x) < Total(file)
  {
    if forall x :: 0 <= x < Total(file) ==> Others(ids, x) < Total(file) {
      forall s | Reachable(file, c, s) && Ids(s.jobs) == ids && s.complete ensures Delivered(file, s) {
        CompleteIsWhole(file, c, s);
      }
    } else {
      var x :| 0 <= x < Total(file) && !(Others(ids, x) < Total(file));
      var t := CompletesWithout(file, c, ids, x);
    }
  }

  predicate Distinct(ids: seq<nat>) {
    forall i, j :: 0 <= i < j < |ids| ==> ids[i] != ids[j]
  }

  /** The chunk numbers below `n`. */
  function Below(n: nat): (r: set<nat>)
    ensures |r| == n && forall i: nat :: i in r <==> i < n
  {
    if n == 0 then {} else Below(n - 1) + {n - 1}
  }

  lemma {:induction false} DistinctOthers(ids: seq<nat>, x: nat, pool: set<nat>)
    requires Distinct(ids) && x !in pool && forall i :: 0 <= i < |ids| && ids[i] != x ==> ids[i] in pool
    ensures Others(ids, x) <= |pool|
    decreases |ids|
  {
    if ids != [] {
      var rest := if ids[0] == x then pool else pool - {ids[0]};
      DistinctOthers(ids[1..], x, rest);
    }
  }

  /** Each chunk delivered at most once: completion under any interleaving means bits and bytes are all there. */
  lemma OnceOnlyIsTrustworthy(file: Data, c: Codec, s: State)
    requires Inverse(c) && Reachable(file, c, s) && s.complete && Distinct(Ids(s.jobs))
    ensures Delivered(file, s)
  {
    ReachableOk(file, c, s);
    var n := Total(file);
    var all := Below(n);
    forall x | 0 <= x < n ensures Others(Ids(s.jobs), x) < n {
      forall j | 0 <= j < |s.jobs| ensures s.jobs[j].id in all { assert JobOk(file, c, s, s.jobs[j]); }
      assert x in all;
      DistinctOthers(Ids(s.jobs), x, all - {x});
    }
    CompleteIsWhole(file, c, s);
  }

  /** One repeated chunk is enough to complete early: in a file of two chunks the second need never arrive. */
  lemma RepeatCompletesEarly(c: Codec) returns (file: Data, t: State)
    requires Inverse(c)
    ensures Reachable(file, c, t) && Total(file) == 2 && Ids(t.jobs) == [0, 0]
    ensures t.complete && !Delivered(file, t)
  {
    file := seq(CHUNK + 1, i => 0);
    var ids: seq<nat> := [0, 0];
    assert ids[1..] == [0];
    assert Others(ids, 1) == 2;
    t := CompletesWithout(file, c, ids, 1);
  }

  // ----- repeated handshakes -----

  /** A worker that takes up a delivered chunk drops it exactly when the file is not mapped yet. */
  lemma DroppedIff(file: Data, c: Codec, s: State, j: nat)
    requires Inverse(c) && Reachable(file, c, s) && Enabled(file, c, s, Begin(j))
    ensures Next(file, c, s, Begin(j)).jobs[j].phase.Dropped? <==> !s.hs.Mapped?
  {
    ReachableOk(file, c, s);
    BeginKeeps(file, c, s, j);
  }

  /** Unless a repeated handshake was answered between listing and mapping, no chunk is delivered before
      the view is mapped and none is ever dropped. */
  lemma NoneBeforeMapping(file: Data, c: Codec, s: State, j: nat)
    requires Inverse(c) && Reachable(file, c, s) && j < |s.jobs| && !s.early
    ensures s.hs.Mapped? && |s.view| == |file| && !s.jobs[j].phase.Dropped?
  {
    ReachableOk(file, c, s);
    assert JobOk(file, c, s, s.jobs[j]);
  }

  /** The handshake is repeated while the file is listed but not mapped, and the early answer arrives. */
  lemma StartedEarly(file: Data, c: Codec) returns (s: State)
    requires file != []
    ensures Reachable(file, c, s) && s.hs.Listed? && s.acked && s.jobs == []
  {
    LastEdge(|file|, CHUNK);
    assert Leads(file, c, Initial(), [], Initial());
    s := Initial();
    ReachOn(file, c, s, Claim);
    s := Next(file, c, s, Claim);
    ReachOn(file, c, s, List);
    s := Next(file, c, s, List);
    ReachOn(file, c, s, Again);
    s := Next(file, c, s, Again);
    ReachOn(file, c, s, AckArrives);
    s := Next(file, c, s, AckArrives);
  }

  /** For every file with content there is a run that drops a genuine chunk: the handshake is repeated
      while the receiver has listed but not mapped the file, the early answer starts the sender, and a
      worker takes up its first chunk. */
  lemma EarlyAnswerDrops(file: Data, c: Codec) returns (s: State)
    requires Inverse(c) && file != []
    ensures Reachable(file, c, s) && Ids(s.jobs) == [0] && Honest(file, c, s.jobs[0]) && s.jobs[0].phase.Dropped?
  {
    LastEdge(|file|, CHUNK);
    s := StartedEarly(file, c);
    ReachOn(file, c, s, Deliver(0));
    s := Next(file, c, s, Deliver(0));
    ReachableOk(file, c, s);
    BeginKeeps(file, c, s, 0);
    ReachOn(file, c, s, Begin(0));
    s := SetPhase(s, 0, Dropped);
    ReachableOk(file, c, s);
    assert JobOk(file, c, s, s.jobs[0]);
  }

  /** Every delivery of chunk `x` was dropped. */
  predicate AllDropped(jobs: seq<Job>, x: nat) {
    forall j :: 0 <= j < |jobs| && jobs[j].id == x ==> jobs[j].phase.Dropped?
  }

  /** The jobs for chunk `x` before `k` are dropped, all others untouched. */
  predicate DroppedTo(jobs: seq<Job>, k: nat, x: nat) {
    forall j :: 0 <= j < |jobs| ==> jobs[j].phase == if jobs[j].id == x && j < k then Dropped else Queued
  }

  /** Workers take up every delivery of chunk `x` before the file is mapped. */
  lemma {:induction false} DropAll(file: Data, c: Codec, s: State, k: nat, x: nat) returns (t: State)
    requires Inverse(c) && Reachable(file, c, s) && s.hs.Listed? && k <= |s.jobs| && DroppedTo(s.jobs, k, x)
    ensures Reachable(file, c, t) && t.hs.Listed? && Ids(t.jobs) == Ids(s.jobs) && DroppedTo(t.jobs, |t.jobs|, x)
    decreases |s.jobs| - k
  {
    t := s;
    if k < |s.jobs| {
      if s.jobs[k].id == x {
        ReachableOk(file, c, s);
        BeginKeeps(file, c, s, k);
        ReachOn(file, c, s, Begin(k));
        t := SetPhase(s, k, Dropped);
      }
      t := DropAll(file, c, t, k + 1, x);
    }
  }

  /** With enough deliveries of other chunks, the transfer completes although chunk `x` was always dropped. */
  lemma CompletesDespiteDrop(file: Data, c: Codec, ids: seq<nat>, x: nat) returns (t: State)
    requires Inverse(c) && forall i :: 0 <= i < |ids| ==> ids[i] < Total(file)
    requires x < Total(file) <= Others(ids, x)
    ensures Reachable(file, c, t) && Ids(t.jobs) == ids && AllDropped(t.jobs, x) && t.complete
  {
    if file == [] { EmptyCount(CHUNK); }
    var s := StartedEarly(file, c);
    s := DeliverAll(file, c, s, ids, 0);
    s := DropAll(file, c, s, 0, x);
    ReachOn(file, c, s, MapView);
    s := Next(file, c, s, MapView);
    t := WorkAll(file, c, s, 0, x, Dropped);
    ReachableOk(file, c, t);
    WorkedTally(t.jobs, x, Dropped);
    assert t.jobs != [];
    assert JobOk(file, c, t, t.jobs[0]);
  }

  lemma DropNeedsOthers(file: Data, c: Codec, s: State, x: nat)
    requires Inverse(c) && Reachable(file, c, s) && s.complete && AllDropped(s.jobs, x)
    ensures Total(file) <= Others(Ids(s.jobs), x)
  {
    ReachableOk(file, c, s);
    TallyBound(s.jobs, x);
  }

  /** A transfer in which every delivery of chunk `x` is dropped can still complete exactly when the other
      chunks are delivered as often as chunks are expected. */
  lemma DroppedCompletesIff(file: Data, c: Codec, ids: seq<nat>, x: nat)
    requires Inverse(c) && x < Total(file) && forall i :: 0 <= i < |ids| ==> ids[i] < Total(file)
    ensures (exists s :: Reachable(file, c, s) && Ids(s.jobs) == ids && AllDropped(s.jobs, x) && s.complete)
            <==> Total(file) <= Others(ids, x)
  {
    if Total(file) <= Others(ids, x) {
      var t := CompletesDespiteDrop(file, c, ids, x);
    } else if s :| Reachable(file, c, s) && Ids(s.jobs) == ids && AllDropped(s.jobs, x) && s.complete {
      DropNeedsOthers(file, c, s, x);
    }
  }

  /** In particular, when no chunk is delivered twice, a dropped chunk keeps the transfer from completing. */
  lemma DroppedNeverCompletes(file: Data, c: Codec, s: State, j: nat)
    requires Inverse(c) && Reachable(file, c, s) && Distinct(Ids(s.jobs)) && j < |s.jobs| && s.jobs[j].phase.Dropped?
    ensures !s.complete
  {
    ReachableOk(file, c, s);
    var x := s.jobs[j].id;
    assert JobOk(file, c, s, s.jobs[j]);
    forall i | 0 <= i < |s.jobs| && s.jobs[i].id == x ensures i == j {
      assert Ids(s.jobs)[i] == Ids(s.jobs)[j];
    }
    DistinctOthers(Ids(s.jobs), x, Below(Total(file)) - {x});
    if s.complete {
      DropNeedsOthers(file, c, s, x);
    }
  }

  /** A handshake repeated before there is a manifest is answered with the announced count and no bits,
      which the sender's decoder reads past. */
  lemma HollowAnswerOverruns(file: Data, c: Codec, header: seq<bv8>) returns (s: State)
    requires file != [] && |header| == Manifest.ACK_HEADER && Manifest.FromLe32(header[1..5]) == Total(file)
    ensures Reachable(file, c, s) && s.hollow && s.bits == []
    ensures Manifest.AckMeaning(false, header + []) == Manifest.Overrun
  {
    LastEdge(|file|, CHUNK);
    assert Leads(file, c, Initial(), [], Initial());
    s := Initial();
    ReachOn(file, c, s, Claim);
    s := Next(file, c, s, Claim);
    ReachOn(file, c, s, Again);
    s := Next(file, c, s, Again);
    assert header + [] == header;
  }

  // ----- which files can be completed -----

  lemma {:induction false} OthersAll(ids: seq<nat>, x: nat)
    requires forall i :: 0 <= i < |ids| ==> ids[i] != x
    ensures Others(ids, x) == |ids|
  {
    if ids != [] { OthersAll(ids[1..], x); }
  }

  /** Every chunk delivered once and worked on: the transfer completes. */
  lemma Completes(file: Data, c: Codec) returns (t: State)
    requires Inverse(c) && file != []
    ensures Reachable(file, c, t) && t.complete
  {
    LastEdge(|file|, CHUNK);
    var n := Total(file);
    var ids: seq<nat> := seq(n, (i: nat) => i);
    var s := Started(file, c);
    s := DeliverAll(file, c, s, ids, 0);
    t := WorkAll(file, c, s, 0, n, Queued);
    ReachableOk(file, c, t);
    WorkedTally(t.jobs, n, Queued);
    OthersAll(ids, n);
    assert t.jobs != [];
    assert JobOk(file, c, t, t.jobs[0]);
  }

  lemma EmptyStays(c: Codec, s: State)
    requires Inverse(c) && Reachable([], c, s)
    ensures !s.complete
  {
    ReachableOk([], c, s);
    EmptyCount(CHUNK);
  }

  /** A transfer can complete exactly when the file is not empty: of an empty file nothing is expected, so
      no count can meet it. */
  lemma CompletableIff(file: Data, c: Codec)
    requires Inverse(c)
    ensures (exists s :: Reachable(file, c, s) && s.complete) <==> file != []
  {
    if file != [] {
      var t := Completes(file, c);
    } else if s :| Reachable(file, c, s) && s.complete {
      EmptyStays(c, s);
    }
  }
}
