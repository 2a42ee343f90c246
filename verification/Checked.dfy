/** What the checksum test of the receiver guarantees by itself, with a decryption and decompression that
    may yield anything: in any interleaving, whatever completes has passed its checksum. */
module Checked {
  import Crc
  import opened Transfer

  // ----- one test -----

  /** The bytes of the view that a chunk covers. */
  function Covered(view: Data, job: Job): Data
    requires job.id * CHUNK + job.size <= |view|
  {
    view[job.id * CHUNK..job.id * CHUNK + job.size]
  }

  /** The view holds bytes with the chunk's checksum where the chunk belongs. */
  predicate Passes(c: Codec, s: State, job: Job) {
    job.id * CHUNK + job.size <= |s.view| && job.id < |s.bits| && c.sum(Covered(s.view, job)) == job.crc32
  }

  /** A worker that has written its bytes sets the bit exactly when the view passes the test, and otherwise
      gives the chunk up; it touches nothing else. */
  lemma MarkedIff(file: Data, c: Codec, s: State, j: nat)
    requires Enabled(file, c, s, Mark(j))
    ensures var job := s.jobs[j]; var t := Next(file, c, s, Mark(j));
            && t.jobs[j].phase == (if Passes(c, s, job) then Marked else Dropped)
            && |t.bits| == |s.bits| && (forall i :: 0 <= i < |s.bits| ==> t.bits[i] == (s.bits[i] || (i == job.id && Passes(c, s, job))))
            && t.view == s.view && t.received == s.received && t.complete == s.complete
            && |t.jobs| == |s.jobs| && forall i :: 0 <= i < |s.jobs| && i != j ==> t.jobs[i] == s.jobs[i]
  {
  }

  // ----- the invariant, for any codec -----

  predicate Begun(job: Job) { job.phase.Writing? || Verified(job) }

  /** How many of its bytes a job has written. */
  function Done(c: Codec, job: Job): nat {
    var d := c.unseal(job.id, job.payload);
    match job.phase
    case Writing(done) => done
    case Marked => if d.Some? then |d.value| else 0
    case Counted => if d.Some? then |d.value| else 0
    case _ => 0
  }

  /** What it has written is what its message unsealed to. */
  predicate Written(c: Codec, view: Data, job: Job) {
    var d := c.unseal(job.id, job.payload);
    var at := job.id * CHUNK;
    Begun(job) ==>
      && d.Some? && Done(c, job) <= |d.value| <= job.size && at + job.size <= |view|
      && view[at..at + Done(c, job)] == d.value[..Done(c, job)]
  }

  /** The clauses of the invariant about one job that its own steps can touch. */
  predicate OwnOk(c: Codec, s: State, job: Job) {
    && job.id < |s.bits| && Written(c, s.view, job) && (Begun(job) ==> s.hs.Mapped?)
    && (Verified(job) ==> Passes(c, s, job) && s.bits[job.id])
  }

  predicate JobSound(file: Data, c: Codec, s: State, job: Job) {
    Honest(file, c, job) && OwnOk(c, s, job)
  }

  predicate JobsSound(file: Data, c: Codec, s: State) {
    forall j :: 0 <= j < |s.jobs| ==> JobSound(file, c, s, s.jobs[j])
  }

  predicate Sound(file: Data, c: Codec, s: State) {
    && (s.hs.Idle? || s.hs.Claimed? ==> !s.early && s.bits == [] && s.jobs == [])
    && (s.acked ==> s.hs.Mapped? || s.early)
    && (s.hs.Listed? || s.hs.Mapped? ==> |s.bits| == Total(file))
    && |s.view| == (if s.hs.Mapped? then |file| else 0)
    && s.expected == (if s.hs.Idle? then 0 else Total(file))
    && JobsSound(file, c, s) && Witnessed(s)
    && s.received == Tally(s.jobs)
    && s.complete == (0 < s.expected <= s.received)
  }

  /** `view'` differs from `view` at most where the job belongs. */
  predicate OnlyAt(view: Data, view': Data, job: Job) {
    |view'| == |view| && forall p :: 0 <= p < |view| && !(job.id * CHUNK <= p < job.id * CHUNK + job.size) ==> view'[p] == view[p]
  }

  /** Chunks with different numbers cover different bytes. */
  lemma Apart(file: Data, c: Codec, view: Data, view': Data, k: Job, j: Job)
    requires Honest(file, c, k) && Honest(file, c, j) && k.id != j.id
    requires OnlyAt(view, view', j) && k.id * CHUNK + k.size <= |view|
    ensures Covered(view', k) == Covered(view, k)
  {
    var a, b := k.id, j.id;
    if a < b { Before(a + 1, b, CHUNK); } else { Before(b + 1, a, CHUNK); }
  }

  /** One worker's step keeps the invariant when its own job is in order and it wrote only where it may. */
  lemma WorkerKeeps(file: Data, c: Codec, s: State, s': State, j: nat, p: Phase)
    requires j < |s.jobs| && JobsSound(file, c, s) && Witnessed(s) && Distinct(Ids(s.jobs)) && s'.hs == s.hs
    requires s'.jobs == s.jobs[j := s.jobs[j].(phase := p)] && OnlyAt(s.view, s'.view, s.jobs[j])
    requires JobSound(file, c, s', s'.jobs[j])
    requires |s'.bits| == |s.bits| && forall i :: 0 <= i < |s.bits| ==> (s.bits[i] ==> s'.bits[i])
    requires forall i :: 0 <= i < |s.bits| && s'.bits[i] && !s.bits[i] ==> i == s.jobs[j].id && Verified(s'.jobs[j])
    requires Verified(s.jobs[j]) ==> Verified(s'.jobs[j])
    ensures JobsSound(file, c, s') && Witnessed(s')
  {
    forall k | 0 <= k < |s'.jobs| ensures JobSound(file, c, s', s'.jobs[k]) {
      if k != j { OtherKeeps(file, c, s, s', j, k); }
    }
    forall i | 0 <= i < |s'.bits| && s'.bits[i]
      ensures exists k :: 0 <= k < |s'.jobs| && s'.jobs[k].id == i && Verified(s'.jobs[k])
    {
      if s.bits[i] {
        var k :| 0 <= k < |s.jobs| && s.jobs[k].id == i && Verified(s.jobs[k]);
        assert s'.jobs[k].id == i && Verified(s'.jobs[k]);
      } else {
        assert s'.jobs[j].id == i && Verified(s'.jobs[j]);
      }
    }
  }

  lemma SameWritten(c: Codec, view: Data, view': Data, job: Job)
    requires Written(c, view, job) && job.id * CHUNK + job.size <= |view| == |view'| && Covered(view', job) == Covered(view, job)
    ensures Written(c, view', job)
  {
    if Begun(job) {
      var at, n := job.id * CHUNK, Done(c, job);
      assert view[at..at + n] == Covered(view, job)[..n];
      assert view'[at..at + n] == Covered(view', job)[..n];
    }
  }

  lemma OtherKeeps(file: Data, c: Codec, s: State, s': State, j: nat, k: nat)
    requires j < |s.jobs| && k < |s.jobs| && k != j && JobsSound(file, c, s) && Distinct(Ids(s.jobs)) && s'.hs == s.hs
    requires OnlyAt(s.view, s'.view, s.jobs[j])
    requires |s'.bits| == |s.bits| && forall i :: 0 <= i < |s.bits| ==> (s.bits[i] ==> s'.bits[i])
    ensures JobSound(file, c, s', s.jobs[k])
  {
    assert JobSound(file, c, s, s.jobs[k]) && JobSound(file, c, s, s.jobs[j]);
    assert Ids(s.jobs)[k] != Ids(s.jobs)[j];
    if Begun(s.jobs[k]) {
      Apart(file, c, s.view, s'.view, s.jobs[k], s.jobs[j]);
      SameWritten(c, s.view, s'.view, s.jobs[k]);
    }
  }

  /** What a step of worker `j` to phase `p` may change. */
  ghost predicate Moves(s: State, s': State, j: nat, p: Phase) {
    && j < |s.jobs| && s'.jobs == s.jobs[j := s.jobs[j].(phase := p)] && OnlyAt(s.view, s'.view, s.jobs[j])
    && !s.jobs[j].phase.Counted? && (s.jobs[j].phase.Marked? ==> p.Counted?)
    && s' == s.(jobs := s'.jobs, view := s'.view, bits := s'.bits, received := s'.received, complete := s'.complete)
    && |s'.bits| == |s.bits| && (forall i :: 0 <= i < |s.bits| ==> (s.bits[i] ==> s'.bits[i]))
    && (forall i :: 0 <= i < |s.bits| && s'.bits[i] && !s.bits[i] ==> i == s.jobs[j].id && p.Marked?)
    && s'.received == s.received + (if p.Counted? then 1 else 0)
    && s'.complete == (s.complete || (p.Counted? && s'.received == s.expected))
  }

  /** Such a step keeps the invariant when the worker's own job is in order after it. */
  lemma MoveSound(file: Data, c: Codec, s: State, s': State, j: nat, p: Phase)
    requires Sound(file, c, s) && Distinct(Ids(s.jobs)) && Moves(s, s', j, p) && OwnOk(c, s', s.jobs[j].(phase := p))
    ensures Sound(file, c, s')
  {
    TallySet(s.jobs, j, s.jobs[j].(phase := p));
    assert JobSound(file, c, s, s.jobs[j]);
    HonestStays(file, c, s.jobs[j], p);
    WorkerKeeps(file, c, s, s', j, p);
  }

  lemma HonestStays(file: Data, c: Codec, job: Job, p: Phase)
    requires Honest(file, c, job)
    ensures Honest(file, c, job.(phase := p))
  {
  }

  /** Taking up a chunk only sets its phase. */
  lemma BeginSets(file: Data, c: Codec, s: State, j: nat)
    requires Enabled(file, c, s, Begin(j))
    ensures var t := Next(file, c, s, Begin(j));
            && |t.jobs| == |s.jobs| && t == SetPhase(s, j, t.jobs[j].phase)
            && (t.jobs[j].phase == Dropped || t.jobs[j].phase == Writing(0))
    ensures Next(file, c, s, Begin(j)).jobs[j].phase == Writing(0) ==>
              var job := s.jobs[j]; var d := c.unseal(job.id, job.payload);
              s.view != [] && job.id * CHUNK + job.size <= |s.view| && d.Some? && |d.value| <= job.size
  {
    var job := s.jobs[j];
    if s.view == [] || job.id * CHUNK + job.size > |s.view| {
      assert Next(file, c, s, Begin(j)) == SetPhase(s, j, Dropped);
    } else {
      var d := c.unseal(job.id, job.payload);
      assert Next(file, c, s, Begin(j)) == SetPhase(s, j, if d.None? || |d.value| > job.size then Dropped else Writing(0));
    }
  }

  lemma BeginOwn(file: Data, c: Codec, s: State, j: nat) returns (p: Phase)
    requires Enabled(file, c, s, Begin(j)) && OwnOk(c, s, s.jobs[j]) && (s.view != [] ==> s.hs.Mapped?)
    ensures var t := Next(file, c, s, Begin(j)); Moves(s, t, j, p) && OwnOk(c, t, s.jobs[j].(phase := p))
  {
    BeginSets(file, c, s, j);
    p := Next(file, c, s, Begin(j)).jobs[j].phase;
  }

  /** Copying on extends what has been written, and only there. */
  lemma PatchWrites(view: Data, at: nat, d: Data, k: nat, n: nat)
    requires k + n <= |d| && at + |d| <= |view| && view[at..at + k] == d[..k]
    ensures var v := Patch(view, at, d, k, n);
            && |v| == |view| && v[at..at + (k + n)] == d[..k + n]
            && forall p :: 0 <= p < |view| && !(at <= p < at + |d|) ==> v[p] == view[p]
  {
    var v := Patch(view, at, d, k, n);
    forall p | at <= p < at + (k + n) ensures v[p] == d[p - at] {
      if p < at + k { assert v[p] == view[p] == view[at..at + k][p - at]; }
    }
  }

  lemma PutWrites(c: Codec, view: Data, view': Data, job: Job, n: nat)
    requires job.phase.Writing? && Written(c, view, job) && c.unseal(job.id, job.payload).Some?
    requires var d := c.unseal(job.id, job.payload).value;
             job.phase.done + n <= |d| && view' == Patch(view, job.id * CHUNK, d, job.phase.done, n)
    ensures Written(c, view', job.(phase := Writing(job.phase.done + n))) && OnlyAt(view, view', job)
  {
    PatchWrites(view, job.id * CHUNK, c.unseal(job.id, job.payload).value, job.phase.done, n);
  }

  lemma PutOwn(file: Data, c: Codec, s: State, j: nat, n: nat) returns (p: Phase)
    requires Enabled(file, c, s, Put(j, n)) && OwnOk(c, s, s.jobs[j])
    ensures var t := Next(file, c, s, Put(j, n)); Moves(s, t, j, p) && OwnOk(c, t, s.jobs[j].(phase := p))
  {
    var job := s.jobs[j];
    var t := Next(file, c, s, Put(j, n));
    PutWrites(c, s.view, t.view, job, n);
    p := Writing(job.phase.done + n);
    assert t.jobs[j] == job.(phase := p);
  }

  lemma MarkWrites(c: Codec, view: Data, job: Job, p: Phase)
    requires job.phase.Writing? && Written(c, view, job) && (p.Marked? || p.Dropped?)
    requires var d := c.unseal(job.id, job.payload); d.Some? && job.phase.done == |d.value|
    ensures Written(c, view, job.(phase := p))
  {
  }

  lemma MarkOwn(file: Data, c: Codec, s: State, j: nat) returns (p: Phase)
    requires Enabled(file, c, s, Mark(j)) && OwnOk(c, s, s.jobs[j])
    ensures var t := Next(file, c, s, Mark(j)); Moves(s, t, j, p) && OwnOk(c, t, s.jobs[j].(phase := p))
  {
    var job := s.jobs[j];
    var t := Next(file, c, s, Mark(j));
    p := if Passes(c, s, job) then Marked else Dropped;
    MarkWrites(c, s.view, job, p);
    assert t.jobs[j] == job.(phase := p);
  }

  lemma CountOwn(file: Data, c: Codec, s: State, j: nat)
    requires Enabled(file, c, s, Count(j)) && OwnOk(c, s, s.jobs[j])
    ensures var t := Next(file, c, s, Count(j)); Moves(s, t, j, Counted) && OwnOk(c, t, s.jobs[j].(phase := Counted))
  {
  }

  lemma DeliverSound(file: Data, c: Codec, s: State, id: nat)
    requires Sound(file, c, s) && Enabled(file, c, s, Deliver(id))
    ensures Sound(file, c, Next(file, c, s, Deliver(id)))
  {
    var s' := Next(file, c, s, Deliver(id));
    NewJobOk(file, c, s, id);
    TallyPush(s.jobs, NewJob(file, c, id));
    forall k | 0 <= k < |s'.jobs| ensures JobSound(file, c, s', s'.jobs[k]) {
      if k < |s.jobs| { assert JobSound(file, c, s, s.jobs[k]); }
    }
    forall i | 0 <= i < |s'.bits| && s'.bits[i]
      ensures exists k :: 0 <= k < |s'.jobs| && s'.jobs[k].id == i && Verified(s'.jobs[k])
    {
      var k :| 0 <= k < |s.jobs| && s.jobs[k].id == i && Verified(s.jobs[k]);
      assert s'.jobs[k].id == i && Verified(s'.jobs[k]);
    }
  }

  lemma MapSound(file: Data, c: Codec, s: State)
    requires Sound(file, c, s) && Enabled(file, c, s, MapView)
    ensures Sound(file, c, Next(file, c, s, MapView))
  {
    var s' := Next(file, c, s, MapView);
    forall k | 0 <= k < |s'.jobs| ensures JobSound(file, c, s', s'.jobs[k]) {
      assert JobSound(file, c, s, s.jobs[k]);
    }
  }

  lemma OneOwnOk(file: Data, c: Codec, s: State, j: nat)
    requires Sound(file, c, s) && j < |s.jobs|
    ensures OwnOk(c, s, s.jobs[j]) && (s.view != [] ==> s.hs.Mapped?)
  {
    assert JobSound(file, c, s, s.jobs[j]);
  }

  lemma BeginSound(file: Data, c: Codec, s: State, j: nat)
    requires Sound(file, c, s) && Distinct(Ids(s.jobs)) && Enabled(file, c, s, Begin(j))
    ensures Sound(file, c, Next(file, c, s, Begin(j)))
  {
    OneOwnOk(file, c, s, j);
    var p := BeginOwn(file, c, s, j);
    MoveSound(file, c, s, Next(file, c, s, Begin(j)), j, p);
  }

  lemma PutSound(file: Data, c: Codec, s: State, j: nat, n: nat)
    requires Sound(file, c, s) && Distinct(Ids(s.jobs)) && Enabled(file, c, s, Put(j, n))
    ensures Sound(file, c, Next(file, c, s, Put(j, n)))
  {
    OneOwnOk(file, c, s, j);
    var p := PutOwn(file, c, s, j, n);
    MoveSound(file, c, s, Next(file, c, s, Put(j, n)), j, p);
  }

  lemma MarkSound(file: Data, c: Codec, s: State, j: nat)
    requires Sound(file, c, s) && Distinct(Ids(s.jobs)) && Enabled(file, c, s, Mark(j))
    ensures Sound(file, c, Next(file, c, s, Mark(j)))
  {
    OneOwnOk(file, c, s, j);
    var p := MarkOwn(file, c, s, j);
    MoveSound(file, c, s, Next(file, c, s, Mark(j)), j, p);
  }

  lemma CountSound(file: Data, c: Codec, s: State, j: nat)
    requires Sound(file, c, s) && Distinct(Ids(s.jobs)) && Enabled(file, c, s, Count(j))
    ensures Sound(file, c, Next(file, c, s, Count(j)))
  {
    OneOwnOk(file, c, s, j);
    CountOwn(file, c, s, j);
    MoveSound(file, c, s, Next(file, c, s, Count(j)), j, Counted);
  }

  /** Every step keeps the invariant, whatever the codec makes of a message, as long as no chunk is delivered
      twice. */
  lemma NextSound(file: Data, c: Codec, s: State, e: Step)
    requires Sound(file, c, s) && Distinct(Ids(s.jobs)) && Enabled(file, c, s, e)
    ensures Sound(file, c, Next(file, c, s, e))
  {
    match e
    case MapView => MapSound(file, c, s);
    case Deliver(id) => DeliverSound(file, c, s, id);
    case Begin(j) => BeginSound(file, c, s, j);
    case Put(j, n) => PutSound(file, c, s, j, n);
    case Mark(j) => MarkSound(file, c, s, j);
    case Count(j) => CountSound(file, c, s, j);
    case _ =>
  }

  lemma PhaseIds(jobs: seq<Job>, j: nat, p: Phase)
    requires j < |jobs|
    ensures Ids(jobs[j := jobs[j].(phase := p)]) == Ids(jobs)
  {
  }

  lemma PutIds(file: Data, c: Codec, s: State, j: nat, n: nat)
    requires Enabled(file, c, s, Put(j, n))
    ensures Ids(Next(file, c, s, Put(j, n)).jobs) == Ids(s.jobs)
  {
    var p := Next(file, c, s, Put(j, n)).jobs[j].phase;
    PhaseIds(s.jobs, j, p);
  }

  lemma MarkIds(file: Data, c: Codec, s: State, j: nat)
    requires Enabled(file, c, s, Mark(j))
    ensures Ids(Next(file, c, s, Mark(j)).jobs) == Ids(s.jobs)
  {
    var p := Next(file, c, s, Mark(j)).jobs[j].phase;
    PhaseIds(s.jobs, j, p);
  }

  lemma BeginIds(file: Data, c: Codec, s: State, j: nat)
    requires Enabled(file, c, s, Begin(j))
    ensures Ids(Next(file, c, s, Begin(j)).jobs) == Ids(s.jobs)
  {
    BeginSets(file, c, s, j);
    PhaseIds(s.jobs, j, Next(file, c, s, Begin(j)).jobs[j].phase);
  }

  /** Deliveries are only ever added. */
  lemma StepIds(file: Data, c: Codec, s: State, e: Step)
    requires Enabled(file, c, s, e)
    ensures Ids(s.jobs) <= Ids(Next(file, c, s, e).jobs)
  {
    match e
    case Deliver(id) => PushIds(s.jobs, NewJob(file, c, id));
    case Begin(j) => BeginIds(file, c, s, j);
    case Put(j, n) => PutIds(file, c, s, j, n);
    case Mark(j) => MarkIds(file, c, s, j);
    case Count(j) => PhaseIds(s.jobs, j, Counted);
    case _ =>
  }

  lemma PushIds(jobs: seq<Job>, job: Job)
    ensures Ids(jobs) <= Ids(jobs + [job])
  {
  }

  lemma {:induction false} LeadsIds(file: Data, c: Codec, s: State, es: seq<Step>, t: State)
    requires Leads(file, c, s, es, t)
    ensures Ids(s.jobs) <= Ids(t.jobs)
    decreases |es|
  {
    if es != [] {
      StepIds(file, c, s, es[0]);
      LeadsIds(file, c, Next(file, c, s, es[0]), es[1..], t);
    }
  }

  lemma {:induction false} LeadsSound(file: Data, c: Codec, s: State, es: seq<Step>, t: State)
    requires Sound(file, c, s) && Leads(file, c, s, es, t) && Distinct(Ids(t.jobs))
    ensures Sound(file, c, t)
    decreases |es|
  {
    if es != [] {
      LeadsIds(file, c, s, es, t);
      assert Distinct(Ids(s.jobs));
      NextSound(file, c, s, es[0]);
      LeadsSound(file, c, Next(file, c, s, es[0]), es[1..], t);
    }
  }

  // ----- what completion means -----

  /** Every slice of the view has the checksum of the file's slice. */
  predicate AllChecked(file: Data, c: Codec, view: Data) {
    |view| == |file| && forall i :: 0 <= i < Total(file) ==> c.sum(SliceAt(view, CHUNK, i)) == c.sum(SliceAt(file, CHUNK, i))
  }

  lemma BitIsChecked(file: Data, c: Codec, s: State, i: nat)
    requires Sound(file, c, s) && i < Total(file) == |s.bits| && s.bits[i]
    ensures |s.view| == |file| && c.sum(SliceAt(s.view, CHUNK, i)) == c.sum(SliceAt(file, CHUNK, i))
  {
    var j :| 0 <= j < |s.jobs| && s.jobs[j].id == i && Verified(s.jobs[j]);
    assert JobSound(file, c, s, s.jobs[j]);
    SliceBounds(file, CHUNK, i);
    SliceBounds(s.view, CHUNK, i);
  }

  lemma AllCounted(file: Data, c: Codec, s: State)
    requires Sound(file, c, s) && s.complete && Distinct(Ids(s.jobs))
    ensures s.hs.Mapped? && |s.bits| == Total(file) && AllSet(s.bits)
  {
    SomeCounted(s.jobs);
    var j :| 0 <= j < |s.jobs| && s.jobs[j].phase.Counted?;
    assert JobSound(file, c, s, s.jobs[j]);
    var n := Total(file);
    forall x | 0 <= x < n ensures s.bits[x] {
      if !s.bits[x] { MissingBit(file, c, s, x); }
    }
  }

  lemma MissingBit(file: Data, c: Codec, s: State, x: nat)
    requires Sound(file, c, s) && Distinct(Ids(s.jobs)) && x < Total(file) == |s.bits| && !s.bits[x]
    ensures s.received < Total(file)
  {
    var all := Below(Total(file));
    forall j | 0 <= j < |s.jobs| ensures s.jobs[j].id in all && (s.jobs[j].id == x ==> !s.jobs[j].phase.Counted?) {
      assert JobSound(file, c, s, s.jobs[j]);
    }
    TallyBound(s.jobs, x);
    assert x in all;
    DistinctOthers(Ids(s.jobs), x, all - {x});
  }

  /** Whatever decryption and decompression yield, in any interleaving: when no chunk is delivered twice and
      the transfer completes, every bit is set and every slice of the view has passed its checksum. */
  lemma CompletionIsChecked(file: Data, c: Codec, s: State)
    requires Reachable(file, c, s) && s.complete && Distinct(Ids(s.jobs))
    ensures |s.bits| == Total(file) && AllSet(s.bits) && AllChecked(file, c, s.view)
  {
    var es :| Leads(file, c, Initial(), es, s);
    LeadsSound(file, c, Initial(), es, s);
    AllCounted(file, c, s);
    forall i | 0 <= i < Total(file) ensures c.sum(SliceAt(s.view, CHUNK, i)) == c.sum(SliceAt(file, CHUNK, i)) {
      BitIsChecked(file, c, s, i);
    }
  }

  /** `d` and `e` differ at most within four consecutive bytes. */
  ghost predicate Burst(d: Data, e: Data) {
    exists pre: Data, v: Data, w: Data, post: Data ::
      |v| == |w| <= 4 && d == pre + v + post && e == pre + w + post
  }

  lemma BurstIsCaught(d: Data, e: Data)
    requires Burst(d, e) && Crc.Checksum(d) == Crc.Checksum(e)
    ensures d == e
  {
    var pre: Data, v: Data, w: Data, post: Data :|
      |v| == |w| <= 4 && d == pre + v + post && e == pre + w + post;
    if v != w { Crc.DetectsBurst(pre, v, w, post); }
  }

  lemma SlicesMakeFile(file: Data, view: Data)
    requires |view| == |file| && forall i :: 0 <= i < Total(file) ==> SliceAt(view, CHUNK, i) == SliceAt(file, CHUNK, i)
    ensures view == file
  {
    forall p | 0 <= p < |file| ensures view[p] == file[p] {
      var i := p / CHUNK;
      OneSlice(|file|, CHUNK, p, i);
      var a := Edge(|file|, CHUNK, i);
      assert SliceAt(view, CHUNK, i)[p - a] == SliceAt(file, CHUNK, i)[p - a];
    }
  }

  /** With the receiver's CRC-32, damage confined to four consecutive bytes of each chunk is never accepted:
      a transfer that completes with at most such damage has delivered the file. */
  lemma NoBurstSurvives(file: Data, c: Codec, s: State)
    requires c.sum == Crc.Checksum && Reachable(file, c, s) && s.complete && Distinct(Ids(s.jobs))
    requires |s.view| == |file| ==> forall i :: 0 <= i < Total(file) ==> Burst(SliceAt(s.view, CHUNK, i), SliceAt(file, CHUNK, i))
    ensures Delivered(file, s)
  {
    CompletionIsChecked(file, c, s);
    forall i | 0 <= i < Total(file) ensures SliceAt(s.view, CHUNK, i) == SliceAt(file, CHUNK, i) {
      BurstIsCaught(SliceAt(s.view, CHUNK, i), SliceAt(file, CHUNK, i));
    }
    SlicesMakeFile(file, s.view);
  }

  /** Chunk `x` unseals to as many bytes with another checksum. */
  predicate Spoilt(file: Data, c: Codec, x: nat)
  {
    x < Total(file)
    && var good := SliceAt(file, CHUNK, x); var d := c.unseal(x, c.seal(x, good));
       d.Some? ==> |d.value| == |good| && c.sum(d.value) != c.sum(good)
  }

  /** A chunk that does not unseal, or unseals to something with another checksum, keeps the transfer from
      completing. */
  lemma SpoiltNeverCompletes(file: Data, c: Codec, s: State, x: nat)
    requires Spoilt(file, c, x) && Reachable(file, c, s) && Distinct(Ids(s.jobs))
    ensures !s.complete
  {
    if s.complete {
      var es :| Leads(file, c, Initial(), es, s);
      LeadsSound(file, c, Initial(), es, s);
      AllCounted(file, c, s);
      assert s.bits[x];
      var j :| 0 <= j < |s.jobs| && s.jobs[j].id == x && Verified(s.jobs[j]);
      VerifiedIsWhole(file, c, s, j);
    }
  }

  /** A verified chunk that unsealed to bytes of full length shows them in the view. */
  lemma VerifiedIsWhole(file: Data, c: Codec, s: State, j: nat)
    requires Sound(file, c, s) && j < |s.jobs| && Verified(s.jobs[j])
    ensures var x := s.jobs[j].id; x < Total(file) && !Spoilt(file, c, x)
  {
    var job := s.jobs[j];
    assert JobSound(file, c, s, job);
    SliceBounds(file, CHUNK, job.id);
    var d := c.unseal(job.id, job.payload);
    assert |d.value| == job.size ==> Covered(s.view, job) == d.value;
  }

  // ----- where the bytes of the view come from -----

  predicate Covers(job: Job, p: nat) { job.id * CHUNK <= p < job.id * CHUNK + job.size }

  /** A worker that is writing has no more bytes than its chunk has room for. */
  predicate Fitting(c: Codec, job: Job) {
    job.phase.Writing? ==> var d := c.unseal(job.id, job.payload); d.Some? && |d.value| <= job.size
  }

  /** A byte that is not 0 belongs to a chunk that was delivered. */
  ghost predicate Sourced(c: Codec, s: State) {
    && (forall j :: 0 <= j < |s.jobs| ==> Fitting(c, s.jobs[j]))
    && forall p :: 0 <= p < |s.view| && s.view[p] != 0 ==> exists j :: 0 <= j < |s.jobs| && Covers(s.jobs[j], p)
  }

  /** Changing phases, and bytes only where the worker's chunk belongs, keeps that. */
  lemma SourcedOn(c: Codec, s: State, s': State, j: nat, p: Phase)
    requires Sourced(c, s) && j < |s.jobs| && s'.jobs == s.jobs[j := s.jobs[j].(phase := p)]
    requires OnlyAt(s.view, s'.view, s.jobs[j]) && Fitting(c, s'.jobs[j])
    ensures Sourced(c, s')
  {
    forall q | 0 <= q < |s'.view| && s'.view[q] != 0 ensures exists i :: 0 <= i < |s'.jobs| && Covers(s'.jobs[i], q) {
      if Covers(s.jobs[j], q) {
        assert Covers(s'.jobs[j], q);
      } else {
        var i :| 0 <= i < |s.jobs| && Covers(s.jobs[i], q);
        assert Covers(s'.jobs[i], q);
      }
    }
  }

  lemma PushSourced(c: Codec, s: State, job: Job)
    requires Sourced(c, s) && job.phase.Queued?
    ensures Sourced(c, s.(jobs := s.jobs + [job]))
  {
    var s' := s.(jobs := s.jobs + [job]);
    forall q | 0 <= q < |s'.view| && s'.view[q] != 0 ensures exists i :: 0 <= i < |s'.jobs| && Covers(s'.jobs[i], q) {
      var i :| 0 <= i < |s.jobs| && Covers(s.jobs[i], q);
      assert Covers(s'.jobs[i], q);
    }
  }

  lemma PutSourced(file: Data, c: Codec, s: State, j: nat, n: nat)
    requires Sourced(c, s) && Enabled(file, c, s, Put(j, n))
    ensures Sourced(c, Next(file, c, s, Put(j, n)))
  {
    var job := s.jobs[j];
    assert Fitting(c, job);
    SourcedOn(c, s, Next(file, c, s, Put(j, n)), j, Writing(job.phase.done + n));
  }

  lemma BeginSourced(file: Data, c: Codec, s: State, j: nat)
    requires Sourced(c, s) && Enabled(file, c, s, Begin(j))
    ensures Sourced(c, Next(file, c, s, Begin(j)))
  {
    BeginSets(file, c, s, j);
    SourcedOn(c, s, Next(file, c, s, Begin(j)), j, Next(file, c, s, Begin(j)).jobs[j].phase);
  }

  lemma MarkSourced(file: Data, c: Codec, s: State, j: nat)
    requires Sourced(c, s) && Enabled(file, c, s, Mark(j))
    ensures Sourced(c, Next(file, c, s, Mark(j)))
  {
    MarkedIff(file, c, s, j);
    SourcedOn(c, s, Next(file, c, s, Mark(j)), j, if Passes(c, s, s.jobs[j]) then Marked else Dropped);
  }

  lemma NextSourced(file: Data, c: Codec, s: State, e: Step)
    requires Sourced(c, s) && Enabled(file, c, s, e)
    ensures Sourced(c, Next(file, c, s, e))
  {
    match e
    case Deliver(id) => PushSourced(c, s, NewJob(file, c, id));
    case Begin(j) => BeginSourced(file, c, s, j);
    case Put(j, n) => PutSourced(file, c, s, j, n);
    case Mark(j) => MarkSourced(file, c, s, j);
    case Count(j) => SourcedOn(c, s, Next(file, c, s, Count(j)), j, Counted);
    case _ =>
  }

  lemma {:induction false} LeadsSourced(file: Data, c: Codec, s: State, es: seq<Step>, t: State)
    requires Sourced(c, s) && Leads(file, c, s, es, t)
    ensures Sourced(c, t)
    decreases |es|
  {
    if es != [] {
      NextSourced(file, c, s, es[0]);
      LeadsSourced(file, c, Next(file, c, s, es[0]), es[1..], t);
    }
  }

  /** In every run, with any codec and any deliveries: a byte of the view that no delivered chunk covers is 0. */
  lemma OnlyDeliveredBytes(file: Data, c: Codec, s: State, p: nat)
    requires Reachable(file, c, s) && p < |s.view| && forall j :: 0 <= j < |s.jobs| ==> !Covers(s.jobs[j], p)
    ensures s.view[p] == 0
  {
    var es :| Leads(file, c, Initial(), es, s);
    LeadsSourced(file, c, Initial(), es, s);
  }

  /** So completion is really wrong after a repeat: there is a file of two chunks of which the first, delivered
      twice, makes the transfer complete with a view that is not the file. */
  lemma RepeatLeavesGap(c: Codec) returns (file: Data, t: State)
    requires Inverse(c)
    ensures Reachable(file, c, t) && Total(file) == 2 && Ids(t.jobs) == [0, 0] && t.complete && t.view != file
  {
    file := seq(CHUNK + 1, i => 1);
    var ids: seq<nat> := [0, 0];
    assert ids[1..] == [0];
    assert Others(ids, 1) == 2;
    t := CompletesWithout(file, c, ids, 1);
    ReachableOk(file, c, t);
    forall j | 0 <= j < |t.jobs| ensures !Covers(t.jobs[j], CHUNK) {
      assert t.jobs[j].id == Ids(t.jobs)[j] == 0;
      assert JobOk(file, c, t, t.jobs[j]);
    }
    if t.view == file { OnlyDeliveredBytes(file, c, t, CHUNK); }
  }
}
