/**
 The parallel copier: workers claim 4096-byte chunks under one lock and carry them over in any order. Each
 step below is one worker's next action; a schedule is any interleaving of such actions.

 `data` is what is copied. Writing, it is the input file and `total` its length; reading, it is what the
 protected stream denotes and `total` the size that stream reports, which counts padding too. Calls into the
 protected stream are atomic; the plain stream is not, and has one shared position.
 */
module ParallelCopy {
  import opened Bytes
  import opened Wrappers
  import opened Providers
  import opened CacheModel
  import opened RunTheory
  import opened Chunks

  datatype Pc =
    | Test | Lock | Check | AdvanceRead | AdvanceWrite | Unlock
    | SourceLock | SourceSeek | SourceRead | SourceUnlock | StreamWrite
    | StreamRead | SinkLock | SinkSeek | SinkWrite | SinkUnlock
    | Done

  /** A worker's locals; `chunk` only remembers the number of its claim. */
  datatype Worker = Worker(pc: Pc, offsetRead: nat, offsetWrite: nat, toProcess: nat, buffer: seq<byte>, chunk: nat)

  datatype Config = Config(data: seq<byte>, total: nat, base: nat, modeWrite: bool) {
    predicate Valid() {
      if modeWrite then total == |data| else |data| <= total
    }
  }

  /** Shared variables, workers, and three records: the claims made, the chunks written, the chunks found empty. */
  datatype State = State(
    owner: Option<nat>,
    readPosition: nat,
    writePosition: nat,
    streamPosition: nat,
    sink: seq<byte>,
    workers: seq<Worker>,
    claims: nat,
    written: set<nat>,
    empty: set<nat>)

  function Start(cfg: Config, threads: nat): State {
    State(None, 0, cfg.base, 0, [], seq(threads, i => Worker(Test, 0, 0, 0, [], 0)), 0, {}, {})
  }

  function Goto(s: State, i: nat, w: Worker): State
    requires i < |s.workers|
  {
    s.(workers := s.workers[i := w])
  }

  /** The next action of worker i; a worker that waits for the lock or is done leaves everything as it is. */
  function Next(cfg: Config, s: State, i: nat): State
    requires i < |s.workers|
  {
    var w := s.workers[i];
    match w.pc
    case Test => Goto(s, i, w.(pc := if s.readPosition < cfg.total then Lock else Done))
    case Lock => if s.owner.None? then Goto(s, i, w.(pc := Check)).(owner := Some(i)) else s
    case Check =>
      if s.readPosition >= cfg.total then Goto(s, i, w.(pc := Done)).(owner := None)
      else Goto(s, i, w.(pc := AdvanceRead, offsetRead := s.readPosition, offsetWrite := s.writePosition,
                         toProcess := Min(4096, cfg.total - s.readPosition), chunk := s.claims))
    case AdvanceRead =>
      Goto(s, i, w.(pc := AdvanceWrite)).(readPosition := s.readPosition + w.toProcess, claims := s.claims + 1)
    case AdvanceWrite => Goto(s, i, w.(pc := Unlock)).(writePosition := s.writePosition + w.toProcess)
    case Unlock => Goto(s, i, w.(pc := if cfg.modeWrite then SourceLock else StreamRead)).(owner := None)
    case SourceLock => if s.owner.None? then Goto(s, i, w.(pc := SourceSeek)).(owner := Some(i)) else s
    case SourceSeek => Goto(s, i, w.(pc := SourceRead)).(streamPosition := w.offsetRead)
    case SourceRead => Goto(s, i, w.(pc := SourceUnlock, buffer := ArrayRead(cfg.data, s.streamPosition, w.toProcess)))
    case SourceUnlock => Goto(s, i, w.(pc := StreamWrite)).(owner := None)
    case StreamWrite =>
      Goto(s, i, w.(pc := Test)).(sink := ArrayWrite(s.sink, w.offsetWrite, w.buffer), written := s.written + {w.chunk})
    case StreamRead =>
      var read := ArrayRead(cfg.data, w.offsetRead, w.toProcess);
      if read == [] then Goto(s, i, w.(pc := Done)).(empty := s.empty + {w.chunk})
      else Goto(s, i, w.(pc := SinkLock, buffer := read))
    case SinkLock => if s.owner.None? then Goto(s, i, w.(pc := SinkSeek)).(owner := Some(i)) else s
    case SinkSeek => Goto(s, i, w.(pc := SinkWrite)).(streamPosition := w.offsetWrite)
    case SinkWrite =>
      Goto(s, i, w.(pc := SinkUnlock))
        .(sink := ArrayWrite(s.sink, s.streamPosition, w.buffer), written := s.written + {w.chunk})
    case SinkUnlock => Goto(s, i, w.(pc := Test)).(owner := None)
    case Done => s
  }

  /** The state after the actions of a schedule. */
  function Execute(cfg: Config, s: State, schedule: seq<nat>): State
    decreases schedule
  {
    if schedule == [] then s
    else if schedule[0] < |s.workers| then Execute(cfg, Next(cfg, s, schedule[0]), schedule[1..])
    else Execute(cfg, s, schedule[1..])
  }

  // ---------------------------------------------------------------- invariant

  predicate InLock(pc: Pc) {
    pc.Check? || pc.AdvanceRead? || pc.AdvanceWrite? || pc.Unlock? || pc.SourceSeek? || pc.SourceRead? ||
    pc.SourceUnlock? || pc.SinkSeek? || pc.SinkWrite? || pc.SinkUnlock?
  }

  /** From the claim until the chunk has been written or found empty. */
  predicate Holding(pc: Pc) {
    pc.AdvanceWrite? || pc.Unlock? || pc.SourceLock? || pc.SourceSeek? || pc.SourceRead? || pc.SourceUnlock? ||
    pc.StreamWrite? || pc.StreamRead? || pc.SinkLock? || pc.SinkSeek? || pc.SinkWrite?
  }

  /** Claims advance both positions together. */
  ghost predicate Positions(cfg: Config, s: State) {
    && s.readPosition == Min(4096 * s.claims, cfg.total)
    && (s.claims > 0 ==> 4096 * (s.claims - 1) < cfg.total)
    && s.writePosition == cfg.base + s.readPosition - HalfDone(s)
  }

  /** What the owner of the lock has added to the read position but not yet to the write position. */
  function HalfDone(s: State): nat {
    if s.owner.Some? && s.owner.value < |s.workers| && s.workers[s.owner.value].pc.AdvanceWrite?
    then s.workers[s.owner.value].toProcess else 0
  }

  /** Exactly the owner of the lock is in a locked section. */
  ghost predicate Locked(s: State) {
    && (s.owner.Some? ==> s.owner.value < |s.workers|)
    && forall i :: 0 <= i < |s.workers| ==> (InLock(s.workers[i].pc) <==> s.owner == Some(i))
  }

  predicate HoldsClaim(cfg: Config, s: State, w: Worker) {
    && w.chunk < s.claims
    && w.offsetRead == 4096 * w.chunk < cfg.total
    && w.toProcess == Min(4096, cfg.total - w.offsetRead)
    && w.offsetWrite == cfg.base + w.offsetRead
  }

  /** The claim that a worker is making or holds. */
  ghost predicate ClaimOk(cfg: Config, s: State, w: Worker) {
    && (w.pc.AdvanceRead? ==>
          && w.chunk == s.claims && w.offsetRead == s.readPosition < cfg.total
          && w.offsetWrite == s.writePosition && w.toProcess == Min(4096, cfg.total - w.offsetRead))
    && (Holding(w.pc) ==> HoldsClaim(cfg, s, w) && w.chunk !in s.written && w.chunk !in s.empty)
    && (w.pc.Done? ==> s.readPosition == cfg.total || s.empty != {})
  }

  /** Where the plain stream stands and what the buffer holds. */
  ghost predicate BufferOk(cfg: Config, s: State, w: Worker) {
    && (w.pc.SourceRead? ==> s.streamPosition == w.offsetRead)
    && (w.pc.SinkWrite? ==> s.streamPosition == w.offsetWrite)
    && (w.pc.SourceUnlock? || w.pc.StreamWrite? || w.pc.SinkLock? || w.pc.SinkSeek? || w.pc.SinkWrite? ==>
          w.buffer == ArrayRead(cfg.data, w.offsetRead, w.toProcess) != [])
    && (w.pc.SourceLock? || w.pc.SourceSeek? || w.pc.SourceRead? || w.pc.SourceUnlock? || w.pc.StreamWrite?
        ==> cfg.modeWrite)
    && (w.pc.StreamRead? || w.pc.SinkLock? || w.pc.SinkSeek? || w.pc.SinkWrite? || w.pc.SinkUnlock? ==> !cfg.modeWrite)
  }

  /** What a worker's locals mean at each point. */
  ghost predicate WorkerOk(cfg: Config, s: State, w: Worker) {
    ClaimOk(cfg, s, w) && BufferOk(cfg, s, w)
  }

  ghost predicate WorkersOk(cfg: Config, s: State) {
    forall i :: 0 <= i < |s.workers| ==> WorkerOk(cfg, s, s.workers[i])
  }

  /** No two workers hold the same claim. */
  ghost predicate Disjoint(s: State) {
    forall i, j :: 0 <= i < j < |s.workers| && Holding(s.workers[i].pc) && Holding(s.workers[j].pc) ==>
      s.workers[i].chunk != s.workers[j].chunk
  }

  ghost predicate Held(s: State, k: nat) {
    exists i :: 0 <= i < |s.workers| && Holding(s.workers[i].pc) && s.workers[i].chunk == k
  }

  /** Every claim is held, written, or was found to lie behind the data. */
  ghost predicate Accounted(cfg: Config, s: State) {
    && (forall k :: 0 <= k < s.claims ==> k in s.written || k in s.empty || Held(s, k))
    && (forall k :: k in s.written ==> k < s.claims)
    && (forall k :: k in s.empty ==> k < s.claims && |cfg.data| <= 4096 * k)
  }

  ghost predicate Invariant(cfg: Config, s: State) {
    && Positions(cfg, s) && Locked(s) && WorkersOk(cfg, s) && Disjoint(s) && Accounted(cfg, s)
    && (cfg.base == 0 ==> Built(cfg.data, s.written, s.sink))
  }

  // ---------------------------------------------------------------- every action keeps it

  lemma LockedKept(cfg: Config, s: State, i: nat)
    requires i < |s.workers| && Locked(s)
    ensures Locked(Next(cfg, s, i))
  {
    hide ArrayWrite, ArrayRead;
  }

  lemma PositionsKept(cfg: Config, s: State, i: nat)
    requires i < |s.workers| && Locked(s) && Positions(cfg, s) && WorkerOk(cfg, s, s.workers[i])
    ensures Positions(cfg, Next(cfg, s, i))
  {
    hide ArrayWrite, ArrayRead;
    LockedKept(cfg, s, i);
  }

  lemma WorkersKept(cfg: Config, s: State, i: nat)
    requires i < |s.workers| && cfg.Valid() && Locked(s) && Positions(cfg, s) && WorkersOk(cfg, s) && Disjoint(s)
    requires Accounted(cfg, s)
    ensures WorkersOk(cfg, Next(cfg, s, i))
  {
    hide ArrayWrite;
    var t := Next(cfg, s, i);
    forall j | 0 <= j < |t.workers| ensures WorkerOk(cfg, t, t.workers[j]) {
      if j == i {
        ActorKept(cfg, s, i);
      } else {
        BystanderKept(cfg, s, i, j);
      }
    }
  }

  lemma ActorKept(cfg: Config, s: State, i: nat)
    requires i < |s.workers| && cfg.Valid() && Locked(s) && Positions(cfg, s) && WorkerOk(cfg, s, s.workers[i])
    requires Accounted(cfg, s)
    ensures WorkerOk(cfg, Next(cfg, s, i), Next(cfg, s, i).workers[i])
  {
    hide Next;
    ActorClaimKept(cfg, s, i);
    ActorBufferKept(cfg, s, i);
  }

  lemma ActorClaimKept(cfg: Config, s: State, i: nat)
    requires i < |s.workers| && Locked(s) && Positions(cfg, s) && ClaimOk(cfg, s, s.workers[i])
    requires Accounted(cfg, s)
    ensures ClaimOk(cfg, Next(cfg, s, i), Next(cfg, s, i).workers[i])
  {
    hide ArrayWrite, ArrayRead;
    var pc := s.workers[i].pc;
    if pc.Check? || pc.AdvanceRead? {
      ClaimMade(cfg, s, i);
    } else if pc.StreamWrite? || pc.StreamRead? || pc.SinkWrite? {
      ClaimSettled(cfg, s, i);
    } else if Holding(pc) {
      ClaimKept(cfg, s, i);
    } else {
      NoClaim(cfg, s, i);
    }
  }

  lemma ClaimMade(cfg: Config, s: State, i: nat)
    requires i < |s.workers| && Locked(s) && Positions(cfg, s) && ClaimOk(cfg, s, s.workers[i]) && Accounted(cfg, s)
    requires s.workers[i].pc.Check? || s.workers[i].pc.AdvanceRead?
    ensures ClaimOk(cfg, Next(cfg, s, i), Next(cfg, s, i).workers[i])
  {
  }

  /** A worker that holds a claim and goes on. */
  lemma ClaimKept(cfg: Config, s: State, i: nat)
    requires i < |s.workers| && ClaimOk(cfg, s, s.workers[i]) && Holding(s.workers[i].pc)
    requires !s.workers[i].pc.StreamWrite? && !s.workers[i].pc.StreamRead? && !s.workers[i].pc.SinkWrite?
    ensures ClaimOk(cfg, Next(cfg, s, i), Next(cfg, s, i).workers[i])
  {
    hide ArrayWrite, ArrayRead;
  }

  /** A worker whose claim is written, or read and perhaps found empty. */
  lemma ClaimSettled(cfg: Config, s: State, i: nat)
    requires i < |s.workers| && ClaimOk(cfg, s, s.workers[i])
    requires s.workers[i].pc.StreamWrite? || s.workers[i].pc.StreamRead? || s.workers[i].pc.SinkWrite?
    ensures ClaimOk(cfg, Next(cfg, s, i), Next(cfg, s, i).workers[i])
  {
    hide ArrayWrite, ArrayRead;
  }

  /** A worker between two claims. */
  lemma NoClaim(cfg: Config, s: State, i: nat)
    requires i < |s.workers| && ClaimOk(cfg, s, s.workers[i]) && !Holding(s.workers[i].pc)
    requires s.readPosition <= cfg.total
    requires !s.workers[i].pc.Check? && !s.workers[i].pc.AdvanceRead?
    ensures ClaimOk(cfg, Next(cfg, s, i), Next(cfg, s, i).workers[i])
  {
    hide ArrayWrite, ArrayRead;
  }

  lemma ActorBufferKept(cfg: Config, s: State, i: nat)
    requires i < |s.workers| && cfg.Valid() && WorkerOk(cfg, s, s.workers[i])
    ensures BufferOk(cfg, Next(cfg, s, i), Next(cfg, s, i).workers[i])
  {
    hide ArrayWrite, ArrayRead;
    var w := s.workers[i];
    if Holding(w.pc) {
      ClaimRead(cfg, w);
    }
  }

  /** A claim on an input file is never empty; an empty read lies behind the data, a proper one is a chunk. */
  lemma ClaimRead(cfg: Config, w: Worker)
    requires cfg.Valid() && w.offsetRead == 4096 * w.chunk < cfg.total
    requires w.toProcess == Min(4096, cfg.total - w.offsetRead)
    ensures var read := ArrayRead(cfg.data, w.offsetRead, w.toProcess);
            && (cfg.modeWrite ==> read != [])
            && (read == [] ==> |cfg.data| <= 4096 * w.chunk)
            && (read != [] ==> w.chunk < Count(|cfg.data|) && read == Chunk(cfg.data, w.chunk))
  {
  }

  lemma BystanderKept(cfg: Config, s: State, i: nat, j: nat)
    requires i < |s.workers| && j < |s.workers| && i != j
    requires Locked(s) && Positions(cfg, s) && Disjoint(s)
    requires WorkerOk(cfg, s, s.workers[i]) && WorkerOk(cfg, s, s.workers[j])
    ensures WorkerOk(cfg, Next(cfg, s, i), Next(cfg, s, i).workers[j])
  {
    hide Next, ClaimOk, BufferOk, Locked, Positions, Disjoint;
    BystanderClaim(cfg, s, i, j);
    BystanderBuffer(cfg, s, i, j);
  }

  lemma BystanderClaim(cfg: Config, s: State, i: nat, j: nat)
    requires i < |s.workers| && j < |s.workers| && i != j
    requires Locked(s) && Positions(cfg, s) && Disjoint(s)
    requires ClaimOk(cfg, s, s.workers[i]) && ClaimOk(cfg, s, s.workers[j])
    ensures ClaimOk(cfg, Next(cfg, s, i), Next(cfg, s, i).workers[j])
  {
    hide ArrayWrite, ArrayRead;
  }

  lemma BystanderBuffer(cfg: Config, s: State, i: nat, j: nat)
    requires i < |s.workers| && j < |s.workers| && i != j && Locked(s)
    requires BufferOk(cfg, s, s.workers[j])
    ensures BufferOk(cfg, Next(cfg, s, i), Next(cfg, s, i).workers[j])
  {
    hide ArrayWrite, ArrayRead;
  }

  /** What an action may do to the claim of its worker. */
  ghost predicate ClaimMoves(s: State, t: State, i: nat)
    requires i < |s.workers|
  {
    && |t.workers| == |s.workers|
    && (forall j :: 0 <= j < |s.workers| && j != i ==> t.workers[j] == s.workers[j])
    && s.claims <= t.claims && s.written <= t.written && s.empty <= t.empty
    && var w, w' := s.workers[i], t.workers[i];
       && (Holding(w'.pc) ==> (Holding(w.pc) && w'.chunk == w.chunk) || w'.chunk == s.claims)
       && (Holding(w.pc) && !Holding(w'.pc) ==> w.chunk in t.written || w.chunk in t.empty)
       && (|| t.claims == s.claims
           || (t.claims == s.claims + 1 && Holding(w'.pc) && w'.chunk == s.claims && !Holding(w.pc)))
       && t.written <= s.written + {w.chunk} && t.empty <= s.empty + {w.chunk}
       && (t.written != s.written || t.empty != s.empty ==> Holding(w.pc))
       && (Holding(w.pc) && Holding(w'.pc) ==> w'.chunk == w.chunk)
  }

  lemma ActorClaim(cfg: Config, s: State, i: nat)
    requires i < |s.workers| && WorkerOk(cfg, s, s.workers[i])
    ensures ClaimMoves(s, Next(cfg, s, i), i)
  {
    hide Next, ClaimMoves;
    if Holding(s.workers[i].pc) {
      HolderMoves(cfg, s, i);
    } else {
      OtherMoves(cfg, s, i);
    }
  }

  lemma HolderMoves(cfg: Config, s: State, i: nat)
    requires i < |s.workers| && WorkerOk(cfg, s, s.workers[i]) && Holding(s.workers[i].pc)
    ensures ClaimMoves(s, Next(cfg, s, i), i)
  {
    hide ArrayWrite, ArrayRead;
  }

  lemma OtherMoves(cfg: Config, s: State, i: nat)
    requires i < |s.workers| && WorkerOk(cfg, s, s.workers[i]) && !Holding(s.workers[i].pc)
    ensures ClaimMoves(s, Next(cfg, s, i), i)
  {
    hide ArrayWrite, ArrayRead;
  }

  lemma DisjointKept(cfg: Config, s: State, i: nat)
    requires i < |s.workers| && WorkersOk(cfg, s) && Disjoint(s)
    ensures Disjoint(Next(cfg, s, i))
  {
    hide Next;
    ActorClaim(cfg, s, i);
  }

  lemma AccountedKept(cfg: Config, s: State, i: nat)
    requires i < |s.workers| && cfg.Valid() && WorkersOk(cfg, s) && Accounted(cfg, s)
    ensures Accounted(cfg, Next(cfg, s, i))
  {
    hide Next, Held;
    ActorClaim(cfg, s, i);
    var t := Next(cfg, s, i);
    forall k | 0 <= k < t.claims ensures k in t.written || k in t.empty || Held(t, k) {
      if k < s.claims {
        if Held(s, k) {
          HeldStays(s, t, i, k);
        }
      } else {
        assert Held(t, k) by { HeldBy(t, i, k); }
      }
    }
    EmptyBehind(cfg, s, i);
  }

  lemma HeldBy(t: State, i: nat, k: nat)
    requires i < |t.workers| && Holding(t.workers[i].pc) && t.workers[i].chunk == k
    ensures Held(t, k)
  {
  }

  lemma HeldStays(s: State, t: State, i: nat, k: nat)
    requires i < |s.workers| == |t.workers|
    requires forall j :: 0 <= j < |s.workers| && j != i ==> t.workers[j] == s.workers[j]
    requires Holding(s.workers[i].pc) && Holding(t.workers[i].pc) ==> t.workers[i].chunk == s.workers[i].chunk
    requires Holding(s.workers[i].pc) && !Holding(t.workers[i].pc) ==>
               s.workers[i].chunk in t.written || s.workers[i].chunk in t.empty
    requires Held(s, k)
    ensures k in t.written || k in t.empty || Held(t, k)
  {
    var j :| 0 <= j < |s.workers| && Holding(s.workers[j].pc) && s.workers[j].chunk == k;
    if Holding(t.workers[j].pc) {
      assert t.workers[j].chunk == k;
    }
  }

  lemma EmptyBehind(cfg: Config, s: State, i: nat)
    requires i < |s.workers| && cfg.Valid() && WorkerOk(cfg, s, s.workers[i]) && Accounted(cfg, s)
    ensures forall k :: k in Next(cfg, s, i).empty ==> |cfg.data| <= 4096 * k
  {
    hide ArrayWrite, ArrayRead;
    if Holding(s.workers[i].pc) {
      ClaimRead(cfg, s.workers[i]);
    }
  }

  lemma BuiltKept(cfg: Config, s: State, i: nat)
    requires i < |s.workers| && cfg.Valid() && WorkerOk(cfg, s, s.workers[i])
    requires cfg.base == 0 && Built(cfg.data, s.written, s.sink)
    ensures Built(cfg.data, Next(cfg, s, i).written, Next(cfg, s, i).sink)
  {
    hide ArrayWrite, ArrayRead, Built;
    var w := s.workers[i];
    if w.pc.StreamWrite? || w.pc.SinkWrite? {
      ClaimRead(cfg, w);
      BuildStep(cfg.data, s.written, s.sink, w.chunk);
    }
  }

  /** The invariant holds at the start and after every action of any worker. */
  lemma InvariantKept(cfg: Config, s: State, i: nat)
    requires i < |s.workers| && cfg.Valid() && Invariant(cfg, s)
    ensures Invariant(cfg, Next(cfg, s, i))
  {
    hide Next, Locked, Positions, Disjoint, Accounted, WorkerOk, Built;
    LockedKept(cfg, s, i);
    PositionsKept(cfg, s, i);
    WorkersKept(cfg, s, i);
    DisjointKept(cfg, s, i);
    AccountedKept(cfg, s, i);
    if cfg.base == 0 {
      BuiltKept(cfg, s, i);
    }
  }

  lemma InvariantAtStart(cfg: Config, threads: nat)
    requires cfg.Valid()
    ensures Invariant(cfg, Start(cfg, threads))
  {
  }

  lemma {:induction false} InvariantAlways(cfg: Config, s: State, schedule: seq<nat>)
    requires cfg.Valid() && Invariant(cfg, s)
    ensures Invariant(cfg, Execute(cfg, s, schedule))
    ensures |Execute(cfg, s, schedule).workers| == |s.workers|
    decreases schedule
  {
    hide Next, Invariant;
    if schedule != [] {
      if schedule[0] < |s.workers| {
        InvariantKept(cfg, s, schedule[0]);
        WorkerCount(cfg, s, schedule[0]);
        InvariantAlways(cfg, Next(cfg, s, schedule[0]), schedule[1..]);
      } else {
        InvariantAlways(cfg, s, schedule[1..]);
      }
    }
  }

  lemma WorkerCount(cfg: Config, s: State, i: nat)
    requires i < |s.workers|
    ensures |Next(cfg, s, i).workers| == |s.workers|
  {
    hide ArrayWrite, ArrayRead;
  }

  // ---------------------------------------------------------------- what the copy achieves

  predicate AllDone(s: State) {
    forall i :: 0 <= i < |s.workers| ==> s.workers[i].pc.Done?
  }

  /**
   Under every interleaving: the claimed ranges are disjoint and both positions move together; when every
   worker has left, every chunk of the data has been written and the output equals the data. That holds when
   reading too, where workers leave early on an empty read.
   */
  lemma CopyIsExact(cfg: Config, threads: nat, schedule: seq<nat>)
    requires cfg.Valid() && cfg.base == 0 && threads > 0
    ensures var t := Execute(cfg, Start(cfg, threads), schedule);
            && Disjoint(t)
            && t.writePosition == t.readPosition - HalfDone(t)
            && (AllDone(t) ==> t.sink == cfg.data)
  {
    hide Next, Built, Execute;
    var t := Execute(cfg, Start(cfg, threads), schedule);
    InvariantAtStart(cfg, threads);
    InvariantAlways(cfg, Start(cfg, threads), schedule);
    if AllDone(t) {
      assert WorkerOk(cfg, t, t.workers[0]);
      forall k | 0 <= k < Count(|cfg.data|) ensures k in t.written {
        assert !Held(t, k);
        assert k < t.claims && k !in t.empty;
      }
      BuiltAll(cfg.data, t.written, t.sink);
    }
  }

  /** Writing, no chunk is ever refused by the stream, whatever its cipher mode and wherever its cache stands. */
  lemma WritesAreAdmissible(cfg: Config, s: State, i: nat, c: Cache)
    requires cfg.Valid() && cfg.base == 0 && Invariant(cfg, s)
    requires i < |s.workers| && s.workers[i].pc.StreamWrite?
    requires c.simple.provider.Legal(|cfg.data|)
    ensures CanWriteAt(c, |s.sink|, s.workers[i].offsetWrite, |s.workers[i].buffer|)
  {
    hide Built, CanWriteAt, Provider.Legal, Positions, Accounted, Disjoint, Locked;
    assert WorkerOk(cfg, s, s.workers[i]);
    ClaimRead(cfg, s.workers[i]);
    ChunkWritable(c, cfg.data, s.written, s.sink, s.workers[i].chunk);
  }

  // ---------------------------------------------------------------- it ends

  /** How far a worker is from the end of its round. */
  function Rank(pc: Pc): nat {
    match pc
    case Done => 0
    case AdvanceRead => 1
    case Check => 2
    case Lock => 3
    case Test => 4
    case StreamWrite => 5
    case SinkUnlock => 5
    case SourceUnlock => 6
    case SinkWrite => 6
    case SourceRead => 7
    case SinkSeek => 7
    case SourceSeek => 8
    case SinkLock => 8
    case SourceLock => 9
    case StreamRead => 9
    case Unlock => 10
    case AdvanceWrite => 11
  }

  function Ranks(ws: seq<Worker>): nat {
    if ws == [] then 0 else Rank(ws[0].pc) + Ranks(ws[1..])
  }

  lemma {:induction false} RanksUpdate(ws: seq<Worker>, i: nat, w: Worker)
    requires i < |ws|
    ensures Ranks(ws[i := w]) + Rank(ws[i].pc) == Ranks(ws) + Rank(w.pc)
  {
    if i == 0 {
      assert ws[0 := w][1..] == ws[1..];
    } else {
      assert ws[i := w][1..] == ws[1..][i - 1 := w];
      RanksUpdate(ws[1..], i - 1, w);
    }
  }

  function Measure(cfg: Config, s: State): int {
    Ranks(s.workers) + 11 * (Count(cfg.total) - s.claims)
  }

  /** An action goes down a rank, or makes a claim. */
  predicate Drops(s: State, t: State, i: nat)
    requires i < |s.workers|
  {
    && |t.workers| == |s.workers| && t.workers == s.workers[i := t.workers[i]]
    && if t.claims == s.claims then Rank(t.workers[i].pc) < Rank(s.workers[i].pc)
       else t.claims == s.claims + 1 && Rank(s.workers[i].pc) == 1 && Rank(t.workers[i].pc) == 11
  }

  lemma RankDrops(cfg: Config, s: State, i: nat)
    requires i < |s.workers| && Next(cfg, s, i) != s
    ensures Drops(s, Next(cfg, s, i), i)
  {
    hide Next, Drops;
    if Holding(s.workers[i].pc) {
      RankDropsHolding(cfg, s, i);
    } else {
      RankDropsBetween(cfg, s, i);
    }
  }

  lemma RankDropsHolding(cfg: Config, s: State, i: nat)
    requires i < |s.workers| && Next(cfg, s, i) != s && Holding(s.workers[i].pc)
    ensures Drops(s, Next(cfg, s, i), i)
  {
    hide ArrayWrite, ArrayRead;
  }

  lemma RankDropsBetween(cfg: Config, s: State, i: nat)
    requires i < |s.workers| && Next(cfg, s, i) != s && !Holding(s.workers[i].pc)
    ensures Drops(s, Next(cfg, s, i), i)
  {
    hide ArrayWrite, ArrayRead;
  }

  /** Every action that does anything brings the end nearer. */
  lemma ActionsEnd(cfg: Config, s: State, i: nat)
    requires i < |s.workers| && Invariant(cfg, s)
    ensures Next(cfg, s, i) != s ==> 0 <= Measure(cfg, Next(cfg, s, i)) < Measure(cfg, s)
  {
    hide Next, Ranks, Rank, Count, Built, Accounted, Disjoint, Locked;
    var t := Next(cfg, s, i);
    if t != s {
      assert WorkerOk(cfg, s, s.workers[i]);
      RankDrops(cfg, s, i);
      RanksUpdate(s.workers, i, t.workers[i]);
      ClaimsBounded(cfg, s, i);
    }
  }

  lemma ClaimsBounded(cfg: Config, s: State, i: nat)
    requires i < |s.workers| && Positions(cfg, s) && WorkerOk(cfg, s, s.workers[i])
    ensures Next(cfg, s, i).claims <= Count(cfg.total)
  {
    hide ArrayWrite, ArrayRead;
  }

  /** As long as a worker has not left, some worker can act. */
  lemma NoDeadlock(cfg: Config, s: State)
    requires Invariant(cfg, s) && !AllDone(s)
    ensures exists i :: 0 <= i < |s.workers| && Next(cfg, s, i) != s
  {
    hide ArrayWrite, ArrayRead, Built, Positions, Accounted, Disjoint;
    var i :| 0 <= i < |s.workers| && !s.workers[i].pc.Done?;
    var j := if s.owner.Some? then s.owner.value else i;
    assert Next(cfg, s, j).workers[j].pc != s.workers[j].pc;
  }

  // ---------------------------------------------------------------- fair schedules

  lemma {:induction false} ExecuteJoins(cfg: Config, s: State, a: seq<nat>, b: seq<nat>)
    ensures Execute(cfg, s, a + b) == Execute(cfg, Execute(cfg, s, a), b)
    decreases a
  {
    hide Next;
    if a == [] {
      assert a + b == b;
    } else {
      assert (a + b)[1..] == a[1..] + b;
      ExecuteJoins(cfg, if a[0] < |s.workers| then Next(cfg, s, a[0]) else s, a[1..], b);
    }
  }

  /** Some actions either leave everything as it was, and are nobody's next action, or bring the end nearer. */
  lemma {:induction false} ActsOrWaits(cfg: Config, s: State, schedule: seq<nat>)
    requires cfg.Valid() && Invariant(cfg, s)
    ensures var t := Execute(cfg, s, schedule);
            || 0 <= Measure(cfg, t) < Measure(cfg, s)
            || (t == s && forall i :: i in schedule && i < |s.workers| ==> Next(cfg, s, i) == s)
    decreases schedule
  {
    hide Next, Invariant, Measure;
    if schedule != [] {
      var i := schedule[0];
      var t := if i < |s.workers| then Next(cfg, s, i) else s;
      if i < |s.workers| {
        ActionsEnd(cfg, s, i);
        InvariantKept(cfg, s, i);
      }
      ActsOrWaits(cfg, t, schedule[1..]);
    }
  }

  /** A round in which every worker gets a turn brings the end nearer while a worker has not left. */
  lemma RoundActs(cfg: Config, s: State, round: seq<nat>)
    requires cfg.Valid() && Invariant(cfg, s) && !AllDone(s)
    requires forall i :: 0 <= i < |s.workers| ==> i in round
    ensures 0 <= Measure(cfg, Execute(cfg, s, round)) < Measure(cfg, s)
  {
    hide Next, Invariant, Measure, Execute, AllDone;
    ActsOrWaits(cfg, s, round);
    NoDeadlock(cfg, s);
  }

  lemma {:induction false} LeftForGood(cfg: Config, s: State, schedule: seq<nat>)
    requires AllDone(s)
    ensures Execute(cfg, s, schedule) == s
    decreases schedule
  {
    hide ArrayWrite, ArrayRead;
    if schedule != [] {
      LeftForGood(cfg, s, schedule[1..]);
    }
  }

  /** Rounds one after another. */
  ghost function InRounds(rounds: seq<seq<nat>>): seq<nat> {
    if rounds == [] then [] else rounds[0] + InRounds(rounds[1..])
  }

  lemma {:induction false} RoundsEnd(cfg: Config, s: State, rounds: seq<seq<nat>>)
    requires cfg.Valid() && Invariant(cfg, s) && Measure(cfg, s) <= |rounds|
    requires forall r, i :: 0 <= r < |rounds| && 0 <= i < |s.workers| ==> i in rounds[r]
    ensures AllDone(s) || Measure(cfg, s) > 0
    ensures AllDone(Execute(cfg, s, InRounds(rounds)))
    decreases |rounds|
  {
    hide Next, Invariant, Measure, Execute, AllDone;
    if AllDone(s) {
      LeftForGood(cfg, s, InRounds(rounds));
    } else {
      var round := if rounds == [] then seq(|s.workers|, i => i) else rounds[0];
      assert forall i {:trigger i in round} :: 0 <= i < |s.workers| ==> i in round by {
        forall i | 0 <= i < |s.workers| ensures i in round {
          assert rounds == [] ==> round[i] == i;
        }
      }
      RoundActs(cfg, s, round);
      InvariantAlways(cfg, s, round);
      ExecuteJoins(cfg, s, round, InRounds(rounds[1..]));
      RoundsEnd(cfg, Execute(cfg, s, round), rounds[1..]);
    }
  }

  lemma {:induction false} RanksAtStart(ws: seq<Worker>)
    requires forall i :: 0 <= i < |ws| ==> ws[i].pc.Test?
    ensures Ranks(ws) == 4 * |ws|
  {
    if ws != [] {
      RanksAtStart(ws[1..]);
    }
  }

  /**
   Every fair schedule ends: after four rounds for each worker and eleven for each chunk all workers have left, and the
   output is the data. A round is any sequence of actions in which every worker gets a turn.
   */
  lemma FairSchedulesEnd(cfg: Config, threads: nat, rounds: seq<seq<nat>>)
    requires cfg.Valid() && cfg.base == 0 && threads > 0
    requires |rounds| >= 4 * threads + 11 * ((cfg.total + 4095) / 4096)
    requires forall r, i :: 0 <= r < |rounds| && 0 <= i < threads ==> i in rounds[r]
    ensures var t := Execute(cfg, Start(cfg, threads), InRounds(rounds));
            t.sink == cfg.data && |t.workers| == threads && forall i :: 0 <= i < threads ==> t.workers[i].pc == Done
  {
    hide Next, Execute, Invariant;
    var s := Start(cfg, threads);
    InvariantAtStart(cfg, threads);
    RanksAtStart(s.workers);
    RoundsEnd(cfg, s, rounds);
    InvariantAlways(cfg, s, InRounds(rounds));
    CopyIsExact(cfg, threads, InRounds(rounds));
  }
}
