/**
 The file converter: the parallel copier at work on a real protected stream, from a plain file to a protected one
 and back. A schedule stands for the interleaving that happens.
 */
module Converter {
  import opened Backing
  import opened Bytes
  import opened Wrappers
  import opened Providers
  import opened CacheTheory
  import opened CipherFormat
  import opened RunTheory
  import opened ProtectedStream
  import opened ParallelCopy
  import opened Chunks
  import opened Pfile
  import opened PfileStreams

  /** Writing, the stream denotes the copier's output; reading, its input, and it reports the size to copy. */
  ghost predicate Attached(s: BlockBasedProtectedStream, cfg: Config, st: State)
    requires s.Valid()
    reads s.Footprint()
  {
    if cfg.modeWrite then
      && s.writer && s.content == st.sink
      && s.simple.provider.Legal(|cfg.data|) && Fits(s.Cached().BlockSize(), |cfg.data|)
    else
      !s.writer && s.isPositionValid && s.content == cfg.data && s.simple.contentSize == cfg.total
  }

  /** While writing, only a write to the protected stream changes the output. */
  lemma SinkKept(cfg: Config, st: State, i: nat)
    requires i < |st.workers| && cfg.modeWrite && WorkerOk(cfg, st, st.workers[i])
    ensures Next(cfg, st, i).sink
         == if st.workers[i].pc.StreamWrite? then ArrayWrite(st.sink, st.workers[i].offsetWrite, st.workers[i].buffer)
            else st.sink
  {
    hide ArrayWrite, ArrayRead;
  }

  lemma WriteBounds(cfg: Config, st: State, i: nat)
    requires i < |st.workers| && cfg.Valid() && cfg.base == 0 && WorkerOk(cfg, st, st.workers[i])
    requires st.workers[i].pc.StreamWrite?
    ensures st.workers[i].offsetWrite + |st.workers[i].buffer| <= |cfg.data|
  {
  }

  lemma ReadBounds(cfg: Config, st: State, i: nat)
    requires i < |st.workers| && WorkerOk(cfg, st, st.workers[i]) && st.workers[i].pc.StreamRead?
    ensures st.workers[i].offsetRead < cfg.total && !cfg.modeWrite
  {
  }

  /** What a worker does with the bytes that the stream returned. */
  function AfterRead(st: State, i: nat, read: seq<byte>): State
    requires i < |st.workers| && st.workers[i].pc.StreamRead?
  {
    var w := st.workers[i];
    if read == [] then Goto(st, i, w.(pc := Done)).(empty := st.empty + {w.chunk})
    else Goto(st, i, w.(pc := SinkLock, buffer := read))
  }

  lemma AfterReadIsNext(cfg: Config, st: State, i: nat, read: seq<byte>)
    requires i < |st.workers| && st.workers[i].pc.StreamRead?
    requires read == ArrayRead(cfg.data, st.workers[i].offsetRead, st.workers[i].toProcess)
    ensures AfterRead(st, i, read) == Next(cfg, st, i)
  {
    hide ArrayRead;
  }

  /** What the converter knows of the copy: reading, it does not know the data. */
  ghost predicate Knows(run: Config, cfg: Config) {
    if cfg.modeWrite then run == cfg else run == cfg.(data := [])
  }

  lemma KnowsMode(run: Config, cfg: Config)
    requires Knows(run, cfg)
    ensures run.modeWrite == cfg.modeWrite
    ensures forall threads :: Start(run, threads) == Start(cfg, threads)
  {
  }

  lemma NextKnown(run: Config, cfg: Config, st: State, i: nat)
    requires Knows(run, cfg) && i < |st.workers| && WorkerOk(cfg, st, st.workers[i]) && !st.workers[i].pc.StreamRead?
    ensures Next(run, st, i) == Next(cfg, st, i)
  {
    hide ArrayWrite, ArrayRead;
  }

  /** One action of one worker, carried out on the stream. */
  method Act(s: BlockBasedProtectedStream, run: Config, ghost cfg: Config, st: State, i: nat) returns (t: State)
    requires Knows(run, cfg)
    requires cfg.Valid() && cfg.base == 0 && i < |st.workers| && Invariant(cfg, st)
    requires s.Valid() && Attached(s, cfg, st)
    modifies s.Footprint()
    ensures t == Next(cfg, st, i)
    ensures s.Valid() && Attached(s, cfg, t) && SameContainer(old(s.Cached()), s.Cached())
  {
    hide Denotes, SameContainer, AfterRead, Knows, CanWriteAt, ArrayWrite, ArrayRead, Built, Next;
    var w := st.workers[i];
    assert WorkerOk(cfg, st, w);
    assert run.modeWrite == cfg.modeWrite by {
      KnowsMode(run, cfg);
    }
    if !w.pc.StreamRead? {
      NextKnown(run, cfg, st, i);
    }
    if w.pc.StreamWrite? {
      WriteBounds(cfg, st, i);
      WritesAreAdmissible(cfg, st, i, s.Cached());
      SinkKept(cfg, st, i);
      var written := s.WriteAsync(w.buffer, w.offsetWrite);
      t := Next(run, st, i);
    } else if w.pc.StreamRead? {
      ReadBounds(cfg, st, i);
      var read := s.ReadAsync(w.toProcess, w.offsetRead);
      t := AfterRead(st, i, read.value);
      AfterReadIsNext(cfg, st, i, read.value);
    } else {
      if run.modeWrite {
        SinkKept(cfg, st, i);
      }
      SameContainerReflexive(s.Cached());
      t := Next(run, st, i);
    }
  }

  /** One entry of the schedule. */
  lemma ExecuteOne(cfg: Config, st: State, i: nat, rest: seq<nat>)
    ensures Execute(cfg, st, [i] + rest) == Execute(cfg, if i < |st.workers| then Next(cfg, st, i) else st, rest)
  {
    hide Next;
    assert ([i] + rest)[1..] == rest;
  }

  /** The threads at work: the stream follows the step machine through the whole schedule. */
  method RunThreads(s: BlockBasedProtectedStream, run: Config, ghost cfg: Config, threads: nat, schedule: seq<nat>)
      returns (t: State)
    requires Knows(run, cfg)
    requires cfg.Valid() && cfg.base == 0
    requires s.Valid() && Attached(s, cfg, Start(cfg, threads))
    modifies s.Footprint()
    ensures t == Execute(cfg, Start(cfg, threads), schedule)
    ensures s.Valid() && Attached(s, cfg, t) && SameContainer(old(s.Cached()), s.Cached())
  {
    hide Denotes, SameContainer, Attached, Invariant, Next, Start, Execute, Knows;
    KnowsMode(run, cfg);
    t := Start(run, threads);
    InvariantAtStart(cfg, threads);
    SameContainerReflexive(s.Cached());
    assert schedule[0..] == schedule;
    for k := 0 to |schedule|
      invariant s.Valid() && Attached(s, cfg, t) && Invariant(cfg, t)
      invariant SameContainer(old(s.Cached()), s.Cached())
      invariant Execute(cfg, t, schedule[k..]) == Execute(cfg, Start(cfg, threads), schedule)
    {
      var i := schedule[k];
      ghost var c := s.Cached();
      assert schedule[k..] == [i] + schedule[k + 1..];
      ExecuteOne(cfg, t, i, schedule[k + 1..]);
      if i < |t.workers| {
        InvariantKept(cfg, t, i);
        t := Act(s, run, cfg, t, i);
        SameContainerTransitive(old(s.Cached()), c, s.Cached());
      }
    }
    assert Execute(cfg, t, []) == t by {
      ExecuteNothing(cfg, t);
    }
  }

  lemma ExecuteNothing(cfg: Config, st: State)
    ensures Execute(cfg, st, []) == st
  {
  }

  /** All workers leave within this schedule. */
  predicate Ends(cfg: Config, threads: nat, schedule: seq<nat>) {
    AllDone(Execute(cfg, Start(cfg, threads), schedule))
  }

  function ToPFile(data: seq<byte>): Config {
    Config(data, |data|, 0, true)
  }

  function FromPFile(plain: seq<byte>, size: nat): Config {
    Config(plain, size, 0, false)
  }

  /** Conversions end under every fair schedule, in both directions. */
  lemma FairConversionsEnd(data: seq<byte>, size: nat, threads: nat, rounds: seq<seq<nat>>)
    requires |data| <= size && threads > 0 && |rounds| >= 4 * threads + 11 * ((size + 4095) / 4096)
    requires forall r, i :: 0 <= r < |rounds| && 0 <= i < threads ==> i in rounds[r]
    ensures Ends(FromPFile(data, size), threads, InRounds(rounds))
    ensures size == |data| ==> Ends(ToPFile(data), threads, InRounds(rounds))
  {
    hide Execute, InRounds;
    FairSchedulesEnd(FromPFile(data, size), threads, rounds);
    FairSchedulesEnd(ToPFile(data), threads, rounds);
  }

  /**
   Converts a file into a protected one. Whatever the interleaving, when all workers have left the result is the
   header followed by the encryption of the whole file.
   */
  method ConvertToPFile(p: Provider, license: seq<byte>, extension: seq<byte>, data: seq<byte>, threads: nat,
      schedule: seq<nat>) returns (file: Option<seq<byte>>)
    requires |EffectiveExtension(extension)| + |license| + 454 < TWO_32 && threads > 0
    requires CanFlush(p, |data|) && Fits(p.CacheBlock(), |data|)
    ensures file.Some? <==> Ends(ToPFile(data), threads, schedule)
    ensures file.Some? ==> file.value == HeaderBytes(NewHeader(license, extension)) + Whole(p, data)
    ensures file.Some? ==> Enciphered(p, data, file.value[|HeaderBytes(NewHeader(license, extension))|..])
  {
    hide HeaderBytes, NewHeader, OffsetsOf, Provider.Cipher, SameContainer, Denotes, CanFlush, Fits, Execute,
      Disjoint, AllDone, OpensBehind, WithHeader, Enciphered, Whole;
    var stream := new BackingStream([], true);
    NewFile(license, extension);
    var policy := new Policy(p);
    var s := Create(policy, license, stream, extension, true, []);
    ghost var c0 := s.Cached();
    FlushLegal(p, |data|);
    var t := RunThreads(s, ToPFile(data), ToPFile(data), threads, schedule);
    if !AllDone(t) {
      return None;
    }
    CopyIsExact(ToPFile(data), threads, schedule);
    FrontKept(c0, s.Cached());
    var bytes := FlushFile(s, HeaderBytes(NewHeader(license, extension)));
    return Some(bytes);
  }

  /**
   Converts a protected file of any readable version back; whatever the interleaving, the result is the content when
   all workers have left. Bytes that are no protected file give nothing.
   */
  method ConvertFromPFile(p: Provider, file: seq<byte>, threads: nat, schedule: seq<nat>, ghost plain: seq<byte>)
    returns (out: Result<Option<seq<byte>>>)
    requires FileHolds(p, file, plain) && |file| < TWO_64 && threads > 0
    ensures out.Err? <==> OpenFails(file)
    ensures Parse(file, 0) == Err(NotPFile) ==> out == Ok(None)
    ensures out.Ok? && Parse(file, 0).Ok? ==>
              var size := CiphertextSize(p.mode, Parse(file, 0).value.major, |plain|);
              && (out.value.Some? <==> Ends(FromPFile(plain, size), threads, schedule))
              && (out.value.Some? ==> out.value.value == plain)
  {
    hide Provider.Cipher, SameContainer, Denotes, Parse, Fits, Execute, Disjoint, AllDone, Provider.CipherSize,
      FileHolds;
    var input := new BackingStream(file, false);
    var policy := new Policy(p);
    var opening := Acquire(policy, input, plain);
    if opening.Err? {
      return Err(opening.error);
    }
    if opening.value.None? {
      return Ok(None);
    }
    var s := opening.value.value.1;
    ghost var size := CiphertextSize(p.mode, opening.value.value.0.major, |plain|);
    ghost var cfg := FromPFile(plain, size);
    var t := RunThreads(s, FromPFile([], s.SizeInner()), cfg, threads, schedule);
    if !AllDone(t) {
      return Ok(None);
    }
    CopyIsExact(cfg, threads, schedule);
    return Ok(Some(t.sink));
  }

  /** There and back, under any two interleavings that end, is the file one started from. */
  method ConvertThereAndBack(p: Provider, license: seq<byte>, extension: seq<byte>, data: seq<byte>, threads: nat,
      there: seq<nat>, back: seq<nat>) returns (out: Option<seq<byte>>)
    requires |EffectiveExtension(extension)| + |license| + 454 < TWO_32 && threads > 0
    requires CanFlush(p, |data|) && Fits(p.CacheBlock(), p.CipherSize(|data|))
    ensures out.Some? ==> out.value == data
    ensures var cfg := FromPFile(data, p.CipherSize(|data|));
            Ends(ToPFile(data), threads, there) && Ends(cfg, threads, back) ==> out == Some(data)
  {
    hide HeaderBytes, NewHeader, Provider.Cipher, CanFlush, Parse, Ends, FileHolds;
    FitsPlain(p, |data|);
    FlushLegal(p, |data|);
    WrittenHolds(p, license, extension, data);
    var file := ConvertToPFile(p, license, extension, data, threads, there);
    if file == None {
      return None;
    }
    var converted := ConvertFromPFile(p, file.value, threads, back, data);
    out := converted.value;
  }
}
