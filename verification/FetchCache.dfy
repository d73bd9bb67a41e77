/** The two-file fetch cache as a step system. Payload bytes and metadata are each
    written to a temporary file and renamed into place, one after the other, while
    other processes store, load, quarantine or crash at any point. Requests whose
    sanitized paths collide share the same two files. */
module FetchCache {
  import opened Basics

  type Bytes = seq<int>

  datatype Request = Request(model: string, cycle: string, forecastHour: nat, product: string)

  datatype Fetch = Fetch(request: Request, sourceOverride: Option<string>, patterns: seq<string>)

  datatype FetchResult = FetchResult(source: string, url: string, bytes: Bytes)

  datatype Metadata = Metadata(request: Request, sourceOverride: Option<string>, patterns: seq<string>,
                               source: string, url: string, family: string, len: nat, digest: string)

  /** Digest and metadata serialization. */
  datatype Codec = Codec(digest: Bytes -> string, encode: Metadata -> Bytes, decode: Bytes -> Option<Metadata>)

  /** The digest is injective; encoded metadata decodes to itself, and an incomplete
      encoding decodes to nothing else. */
  ghost predicate Faithful(c: Codec) {
    && (forall a, b :: c.digest(a) == c.digest(b) ==> a == b)
    && (forall m :: c.decode(c.encode(m)) == Some(m))
    && forall m, p :: p <= c.encode(m) && c.decode(p).Some? ==> c.decode(p) == Some(m)
  }

  // ---- matching ----

  predicate EndsWith(s: string, suffix: string) {
    |suffix| <= |s| && s[|s| - |suffix|..] == suffix
  }

  /** One file serves all forecast hours of these products. */
  predicate UsesSharedForecast(f: Fetch) {
    f.request.model == "sref" && "ensprod/pgrb212/" <= f.request.product && EndsWith(f.request.product, "_3hrly")
  }

  predicate RequestMatches(cached: Request, f: Fetch) {
    if UsesSharedForecast(f)
    then cached.model == f.request.model && cached.cycle == f.request.cycle && cached.product == f.request.product
    else cached == f.request
  }

  /** A load of f may be answered by what was stored for g. */
  predicate Answers(g: Fetch, f: Fetch) {
    RequestMatches(g.request, f) && g.sourceOverride == f.sourceOverride && g.patterns == f.patterns
  }

  function MetadataOf(c: Codec, f: Fetch, r: FetchResult): Metadata {
    Metadata(f.request, f.sourceOverride, f.patterns, r.source, r.url, f.request.product, |r.bytes|, c.digest(r.bytes))
  }

  /** The checks a load makes before it trusts the two files it has read. */
  function Accept(c: Codec, f: Fetch, bytes: Bytes, metaBytes: Bytes): Option<FetchResult> {
    var m := c.decode(metaBytes);
    if m.None? then None
    else if m.value.len != |bytes| || !RequestMatches(m.value.request, f)
         || m.value.sourceOverride != f.sourceOverride || m.value.patterns != f.patterns
         || m.value.family != f.request.product || m.value.digest != c.digest(bytes) then None
    else Some(FetchResult(m.value.source, m.value.url, bytes))
  }

  // ---- the file system ----

  datatype Name = BytesFile | MetaFile | TmpBytes(id: nat) | TmpMeta(id: nat)

  datatype Store = Store(fetch: Fetch, result: FetchResult)

  /** A file body: what its creator has written so far of what it means to write. */
  datatype Inode = Inode(written: nat, isMeta: bool, store: Store)

  function Target(c: Codec, i: Inode): Bytes {
    if i.isMeta then c.encode(MetadataOf(c, i.store.fetch, i.store.result)) else i.store.result.bytes
  }

  function Content(c: Codec, i: Inode): Bytes {
    var full := Target(c, i);
    if i.written <= |full| then full[..i.written] else full
  }

  /** Where a process stands inside a store or a load. */
  datatype Process =
    | Idle
    | Opening(store: Store, meta: bool)
    | Writing(store: Store, meta: bool, id: nat, inode: nat)
    | Checking(fetch: Fetch)
    | ReadingBytes(fetch: Fetch)
    | ReadingMeta(fetch: Fetch, bytes: Bytes)
    | Deciding(fetch: Fetch, bytes: Bytes, metaBytes: Bytes)
    | Quarantining(metaNext: bool)

  datatype Hit = Hit(fetch: Fetch, result: FetchResult)

  /** names bind to bodies; stores and hits are the history of the run. */
  datatype State = State(names: map<Name, nat>, inodes: seq<Inode>, procs: map<nat, Process>,
                         stores: seq<Store>, hits: seq<Hit>)

  function InitialState(): State { State(map[], [], map[], [], []) }

  function ProcessOf(s: State, pid: nat): Process { if pid in s.procs then s.procs[pid] else Idle }

  function Goes(s: State, pid: nat, p: Process): State { s.(procs := s.procs[pid := p]) }

  function TmpName(meta: bool, id: nat): Name { if meta then TmpMeta(id) else TmpBytes(id) }

  function FinalName(meta: bool): Name { if meta then MetaFile else BytesFile }

  function ReadFile(c: Codec, s: State, n: Name): Option<Bytes> {
    if n in s.names && s.names[n] < |s.inodes| then Some(Content(c, s.inodes[s.names[n]])) else None
  }

  /** What may happen next; every one of them concerns a single process. */
  datatype Action =
    | BeginStore(pid: nat, store: Store)
    | BeginLoad(pid: nat, fetch: Fetch)
    | CreateTemporary(pid: nat, id: nat)
    | WriteChunk(pid: nat, count: nat)
    | WriteFails(pid: nat)
    | RenameTemporary(pid: nat)
    | Proceed(pid: nat)
    | Crash(pid: nat)

  /** create_new: an existing temporary is an error, and the error path removes it. */
  function CreateStep(s: State, pid: nat, id: nat, p: Process): State
    requires p.Opening?
  {
    var tmp := TmpName(p.meta, id);
    if tmp in s.names then Goes(s.(names := s.names - {tmp}), pid, Idle)
    else
      Goes(s.(names := s.names[tmp := |s.inodes|], inodes := s.inodes + [Inode(0, p.meta, p.store)]),
           pid, Writing(p.store, p.meta, id, |s.inodes|))
  }

  /** Only a finished body is renamed; after the payload comes the metadata. */
  function RenameStep(c: Codec, s: State, pid: nat, p: Process): State
    requires p.Writing?
  {
    var tmp := TmpName(p.meta, p.id);
    if p.inode >= |s.inodes| || s.inodes[p.inode].written < |Target(c, s.inodes[p.inode])| then s
    else if tmp !in s.names then Goes(s, pid, Idle)
    else
      Goes(s.(names := (s.names - {tmp})[FinalName(p.meta) := s.names[tmp]]), pid,
           if p.meta then Idle else Opening(p.store, true))
  }

  /** The next instruction of a load. */
  function LoadStep(c: Codec, s: State, pid: nat, p: Process): State {
    match p
    case Checking(f) =>
      if BytesFile in s.names && MetaFile in s.names then Goes(s, pid, ReadingBytes(f))
      else if BytesFile in s.names || MetaFile in s.names then Goes(s, pid, Quarantining(false))
      else Goes(s, pid, Idle)
    case ReadingBytes(f) =>
      var bytes := ReadFile(c, s, BytesFile);
      Goes(s, pid, if bytes.None? then Quarantining(false) else ReadingMeta(f, bytes.value))
    case ReadingMeta(f, bytes) =>
      var meta := ReadFile(c, s, MetaFile);
      Goes(s, pid, if meta.None? then Quarantining(false) else Deciding(f, bytes, meta.value))
    case Deciding(f, bytes, metaBytes) =>
      var r := Accept(c, f, bytes, metaBytes);
      if r.None? then Goes(s, pid, Quarantining(false))
      else Goes(s.(hits := s.hits + [Hit(f, r.value)]), pid, Idle)
    case Quarantining(metaNext) =>
      Goes(s.(names := s.names - {FinalName(metaNext)}), pid, if metaNext then Idle else Quarantining(true))
    case _ => s
  }

  /** One step of the system. An action that does not fit the process changes nothing. */
  function Step(c: Codec, s: State, a: Action): State {
    var p := ProcessOf(s, a.pid);
    match a
    case BeginStore(pid, store) =>
      if p.Idle? then Goes(s.(stores := s.stores + [store]), pid, Opening(store, false)) else s
    case BeginLoad(pid, fetch) => if p.Idle? then Goes(s, pid, Checking(fetch)) else s
    case CreateTemporary(pid, id) => if p.Opening? then CreateStep(s, pid, id, p) else s
    case WriteChunk(pid, count) =>
      if p.Writing? && p.inode < |s.inodes|
      then s.(inodes := s.inodes[p.inode := s.inodes[p.inode].(written := s.inodes[p.inode].written + count)]) else s
    case WriteFails(pid) =>
      if p.Writing? then Goes(s.(names := s.names - {TmpName(p.meta, p.id)}), pid, Idle) else s
    case RenameTemporary(pid) => if p.Writing? then RenameStep(c, s, pid, p) else s
    case Proceed(pid) => LoadStep(c, s, pid, p)
    case Crash(pid) => Goes(s, pid, Idle)
  }

  function Run(c: Codec, s: State, actions: seq<Action>): State {
    if actions == [] then s else Step(c, Run(c, s, actions[..|actions| - 1]), actions[|actions| - 1])
  }

  // ---- coherence ----

  ghost predicate IsMetaName(n: Name) { n.MetaFile? || n.TmpMeta? }

  /** Text some recorded store may have left at the metadata path. */
  ghost predicate FromStore(c: Codec, stores: seq<Store>, text: Bytes) {
    exists st :: st in stores && text <= c.encode(MetadataOf(c, st.fetch, st.result))
  }

  /** The result is exactly that of one recorded store made for a matching request. */
  ghost predicate Coherent(stores: seq<Store>, h: Hit) {
    exists st :: st in stores && st.result == h.result && Answers(st.fetch, h.fetch)
  }

  ghost predicate ProcessSound(c: Codec, stores: seq<Store>, p: Process) {
    && ((p.Opening? || p.Writing?) ==> p.store in stores)
    && (p.Deciding? ==> FromStore(c, stores, p.metaBytes))
  }

  ghost predicate Inv(c: Codec, s: State) {
    && (forall i :: 0 <= i < |s.inodes| ==> s.inodes[i].store in s.stores)
    && (forall n :: n in s.names ==> s.names[n] < |s.inodes|)
    && (forall n :: n in s.names && IsMetaName(n) ==> s.inodes[s.names[n]].isMeta)
    && (forall pid :: pid in s.procs ==> ProcessSound(c, s.stores, s.procs[pid]))
    && forall h :: h in s.hits ==> Coherent(s.stores, h)
  }

  lemma MoreStores(c: Codec, stores: seq<Store>, st: Store)
    ensures forall x :: x in stores ==> x in stores + [st]
    ensures forall p :: ProcessSound(c, stores, p) ==> ProcessSound(c, stores + [st], p)
    ensures forall h :: Coherent(stores, h) ==> Coherent(stores + [st], h)
  {
    forall p | ProcessSound(c, stores, p) ensures ProcessSound(c, stores + [st], p) {
      if p.Deciding? {
        var x :| x in stores && p.metaBytes <= c.encode(MetadataOf(c, x.fetch, x.result));
        assert x in stores + [st];
      }
    }
    forall h | Coherent(stores, h) ensures Coherent(stores + [st], h) {
      var x :| x in stores && x.result == h.result && Answers(x.fetch, h.fetch);
      assert x in stores + [st];
    }
  }

  /** Whatever is read at the metadata path comes from a recorded store. */
  lemma MetaReadFromStore(c: Codec, s: State)
    requires Inv(c, s) && ReadFile(c, s, MetaFile).Some?
    ensures FromStore(c, s.stores, ReadFile(c, s, MetaFile).value)
  {
    var i := s.inodes[s.names[MetaFile]];
    assert IsMetaName(MetaFile);
    assert i.store in s.stores && Content(c, i) <= c.encode(MetadataOf(c, i.store.fetch, i.store.result));
  }

  /** Accepted text and bytes are those of the store the text came from. */
  lemma AcceptIsCoherent(c: Codec, stores: seq<Store>, f: Fetch, bytes: Bytes, metaBytes: Bytes)
    requires Faithful(c) && FromStore(c, stores, metaBytes) && Accept(c, f, bytes, metaBytes).Some?
    ensures Coherent(stores, Hit(f, Accept(c, f, bytes, metaBytes).value))
  {
    var st :| st in stores && metaBytes <= c.encode(MetadataOf(c, st.fetch, st.result));
    assert c.decode(metaBytes) == Some(MetadataOf(c, st.fetch, st.result));
    assert c.digest(bytes) == c.digest(st.result.bytes);
    assert st.result == Accept(c, f, bytes, metaBytes).value;
  }

  /** The metadata of a store is accepted with exactly the bytes of that store, and for
      exactly the loads it answers. */
  lemma AcceptExactly(c: Codec, st: Store, f: Fetch, bytes: Bytes)
    requires Faithful(c)
    ensures var text := c.encode(MetadataOf(c, st.fetch, st.result));
      Accept(c, f, bytes, text) ==
      if bytes == st.result.bytes && Answers(st.fetch, f) then Some(st.result) else None
  {
    hide RequestMatches;
    RequestMatchesProduct(st.fetch.request, f);
    assert c.digest(bytes) == c.digest(st.result.bytes) ==> bytes == st.result.bytes;
    assert c.decode(c.encode(MetadataOf(c, st.fetch, st.result))) == Some(MetadataOf(c, st.fetch, st.result));
  }

  lemma RequestMatchesProduct(cached: Request, f: Fetch)
    ensures RequestMatches(cached, f) ==> cached.product == f.request.product
  {
  }

  lemma LoadStepKeeps(c: Codec, s: State, pid: nat)
    requires Faithful(c) && Inv(c, s)
    ensures Inv(c, LoadStep(c, s, pid, ProcessOf(s, pid)))
  {
    hide Accept, ReadFile, FromStore, Coherent, Faithful;
    var p := ProcessOf(s, pid);
    if p.ReadingMeta? && ReadFile(c, s, MetaFile).Some? {
      MetaReadFromStore(c, s);
    }
    if p.Deciding? && Accept(c, p.fetch, p.bytes, p.metaBytes).Some? {
      AcceptIsCoherent(c, s.stores, p.fetch, p.bytes, p.metaBytes);
    }
  }

  lemma RenameKeeps(c: Codec, s: State, pid: nat)
    requires Inv(c, s) && ProcessOf(s, pid).Writing?
    ensures Inv(c, RenameStep(c, s, pid, ProcessOf(s, pid)))
  {
    hide FromStore, Coherent, Target;
  }

  lemma CreateKeeps(c: Codec, s: State, pid: nat, id: nat)
    requires Inv(c, s) && ProcessOf(s, pid).Opening?
    ensures Inv(c, CreateStep(s, pid, id, ProcessOf(s, pid)))
  {
    hide FromStore, Coherent;
  }

  /** Every step of every process keeps the invariant. */
  lemma StepKeeps(c: Codec, s: State, a: Action)
    requires Faithful(c) && Inv(c, s)
    ensures Inv(c, Step(c, s, a))
  {
    hide FromStore, Coherent, LoadStep, RenameStep, CreateStep, Faithful;
    match a
    case BeginStore(pid, store) => MoreStores(c, s.stores, store);
    case BeginLoad(pid, fetch) =>
    case CreateTemporary(pid, id) => if ProcessOf(s, pid).Opening? { CreateKeeps(c, s, pid, id); }
    case WriteChunk(pid, count) =>
    case WriteFails(pid) =>
    case RenameTemporary(pid) => if ProcessOf(s, pid).Writing? { RenameKeeps(c, s, pid); }
    case Proceed(pid) => LoadStepKeeps(c, s, pid);
    case Crash(pid) =>
  }

  lemma {:induction false} RunKeeps(c: Codec, actions: seq<Action>)
    requires Faithful(c)
    ensures Inv(c, Run(c, InitialState(), actions))
  {
    if actions != [] {
      RunKeeps(c, actions[..|actions| - 1]);
      StepKeeps(c, Run(c, InitialState(), actions[..|actions| - 1]), actions[|actions| - 1]);
    }
  }

  /** In every interleaving, every hit is exactly the result of one earlier store made
      for a matching request. */
  lemma HitsAreCoherent(c: Codec, actions: seq<Action>, h: Hit)
    requires Faithful(c) && h in Run(c, InitialState(), actions).hits
    ensures Coherent(Run(c, InitialState(), actions).stores, h)
  {
    RunKeeps(c, actions);
  }

  /** A three-hourly ensemble product of the short-range ensemble. */
  ghost predicate ThreeHourlyEnsemble(model: string, product: string) {
    && model == ['s', 'r', 'e', 'f']
    && |product| >= 16 && product[..16] == "ensprod/pgrb212/"
    && product[|product| - 6..] == "_3hrly"
  }

  /** Fetches answer each other if they agree in everything, or in everything but the hour
      of a three-hourly ensemble product. */
  lemma AnswersExactly(g: Fetch, f: Fetch)
    ensures Answers(g, f) <==>
      && g.request.model == f.request.model && g.request.cycle == f.request.cycle
      && g.request.product == f.request.product
      && g.sourceOverride == f.sourceOverride && g.patterns == f.patterns
      && (g.request.forecastHour == f.request.forecastHour
          || ThreeHourlyEnsemble(f.request.model, f.request.product))
  {
    SharedExactly(f);
  }

  lemma SharedExactly(f: Fetch)
    ensures UsesSharedForecast(f) <==> ThreeHourlyEnsemble(f.request.model, f.request.product)
  {
    assert |"ensprod/pgrb212/"| == 16 && |"_3hrly"| == 6;
    assert "sref" == ['s', 'r', 'e', 'f'];
  }

  /** In every interleaving a hit comes from a store that agrees with it field by field;
      only a three-hourly ensemble product may have been stored for another hour. */
  lemma HitAgrees(c: Codec, actions: seq<Action>, h: Hit) returns (st: Store)
    requires Faithful(c) && h in Run(c, InitialState(), actions).hits
    ensures st in Run(c, InitialState(), actions).stores && st.result == h.result
    ensures var g, f := st.fetch, h.fetch;
      && g.request.model == f.request.model && g.request.cycle == f.request.cycle
      && g.request.product == f.request.product
      && g.sourceOverride == f.sourceOverride && g.patterns == f.patterns
      && (!ThreeHourlyEnsemble(f.request.model, f.request.product) ==> g.request.forecastHour == f.request.forecastHour)
  {
    hide Run, Faithful, Answers, ThreeHourlyEnsemble;
    HitsAreCoherent(c, actions, h);
    st :| st in Run(c, InitialState(), actions).stores && st.result == h.result && Answers(st.fetch, h.fetch);
    AnswersExactly(st.fetch, h.fetch);
  }

  /** Hits and stores only ever grow, and a step that hits records no store. */
  lemma StepGrows(c: Codec, s: State, a: Action)
    ensures var t := Step(c, s, a);
      && s.stores <= t.stores && s.hits <= t.hits && |t.hits| <= |s.hits| + 1
      && (|t.hits| > |s.hits| ==> t.stores == s.stores)
  {
    hide Accept, ReadFile, Target;
  }

  /** The k-th hit returns the result of a store that had begun when the hit happened. */
  lemma {:induction false} HitFollowsStore(c: Codec, actions: seq<Action>, k: nat) returns (n: nat)
    requires Faithful(c) && k < |Run(c, InitialState(), actions).hits|
    ensures n <= |actions| && |Run(c, InitialState(), actions[..n]).hits| == k
    ensures Coherent(Run(c, InitialState(), actions[..n]).stores, Run(c, InitialState(), actions).hits[k])
  {
    hide Coherent, Step, Faithful;
    var last := |actions| - 1;
    assert actions != [];
    var before := Run(c, InitialState(), actions[..last]);
    StepGrows(c, before, actions[last]);
    if k < |before.hits| {
      n := HitFollowsStore(c, actions[..last], k);
      assert actions[..last][..n] == actions[..n];
    } else {
      n := last;
      HitsAreCoherent(c, actions, Run(c, InitialState(), actions).hits[k]);
    }
  }

  // ---- temporaries ----

  ghost predicate Writes(s: State, pid: nat, n: Name) {
    ProcessOf(s, pid).Writing? && TmpName(ProcessOf(s, pid).meta, ProcessOf(s, pid).id) == n
  }

  /** Every temporary has a process that is writing it. */
  ghost predicate Owned(s: State) {
    forall n :: n in s.names && (n.TmpBytes? || n.TmpMeta?) ==> exists pid :: Writes(s, pid, n)
  }

  /** A step that is no crash keeps the writer of every temporary it leaves. */
  lemma StepKeepsWriter(c: Codec, s: State, a: Action, n: Name, pid: nat)
    requires !a.Crash? && n in Step(c, s, a).names && Writes(s, pid, n)
    ensures Writes(Step(c, s, a), pid, n)
  {
    hide Accept, ReadFile, Target;
  }

  lemma StepKeepsOwned(c: Codec, s: State, a: Action)
    requires Owned(s) && !a.Crash?
    ensures Owned(Step(c, s, a))
  {
    var t := Step(c, s, a);
    forall n | n in t.names && (n.TmpBytes? || n.TmpMeta?) ensures exists pid :: Writes(t, pid, n) {
      if n in s.names {
        var pid :| Writes(s, pid, n);
        StepKeepsWriter(c, s, a, n, pid);
      } else {
        NewTemporary(c, s, a, n);
      }
    }
  }

  lemma NewTemporary(c: Codec, s: State, a: Action, n: Name)
    requires n in Step(c, s, a).names && n !in s.names && (n.TmpBytes? || n.TmpMeta?)
    ensures Writes(Step(c, s, a), a.pid, n)
  {
    hide Accept, ReadFile, Target;
  }

  /** In a run without crashes no temporary outlives its writer. */
  lemma {:induction false} TemporariesOwned(c: Codec, actions: seq<Action>)
    requires forall i :: 0 <= i < |actions| ==> !actions[i].Crash?
    ensures Owned(Run(c, InitialState(), actions))
  {
    hide Step, Owned;
    if actions == [] {
      OwnedAtFirst();
    } else {
      TemporariesOwned(c, actions[..|actions| - 1]);
      StepKeepsOwned(c, Run(c, InitialState(), actions[..|actions| - 1]), actions[|actions| - 1]);
    }
  }

  lemma OwnedAtFirst()
    ensures Owned(InitialState())
  {
  }

  // ---- a store and a load that nobody disturbs ----

  /** Write one of the two files from start to end. */
  ghost function WriteOne(c: Codec, s: State, pid: nat, id: nat, size: nat): State {
    var created := Step(c, s, CreateTemporary(pid, id));
    Step(c, Step(c, created, WriteChunk(pid, size)), RenameTemporary(pid))
  }

  lemma WriteOnePublishes(c: Codec, s: State, pid: nat, id: nat, size: nat)
    requires Inv(c, s) && ProcessOf(s, pid).Opening?
    requires TmpName(ProcessOf(s, pid).meta, id) !in s.names
    requires size == |Target(c, Inode(0, ProcessOf(s, pid).meta, ProcessOf(s, pid).store))|
    ensures var p, t := ProcessOf(s, pid), WriteOne(c, s, pid, id, size);
            && ReadFile(c, t, FinalName(p.meta)) == Some(Target(c, Inode(0, p.meta, p.store)))
            && ReadFile(c, t, FinalName(!p.meta)) == ReadFile(c, s, FinalName(!p.meta))
            && ProcessOf(t, pid) == (if p.meta then Idle else Opening(p.store, true))
            && t.stores == s.stores && t.hits == s.hits
            && forall n :: n in t.names ==> n in s.names || n == FinalName(p.meta)
  {
    var p := ProcessOf(s, pid);
    var tmp, newest := TmpName(p.meta, id), |s.inodes|;
    var body := Inode(0, p.meta, p.store);
    var s1 := Step(c, s, CreateTemporary(pid, id));
    assert s1.names == s.names[tmp := newest] && s1.inodes == s.inodes + [body];
    var s2 := Step(c, s1, WriteChunk(pid, size));
    var full := body.(written := size);
    assert s2.inodes == s.inodes + [full] && s2.names == s1.names;
    assert Target(c, full) == Target(c, body) && Content(c, full) == Target(c, body);
    var t := Step(c, s2, RenameTemporary(pid));
    assert t.names[FinalName(p.meta)] == newest && t.inodes[newest] == full;
    var other := FinalName(!p.meta);
    assert other in t.names <==> other in s.names;
    if other in s.names { assert s.names[other] < |s.inodes| && t.inodes[s.names[other]] == s.inodes[s.names[other]]; }
  }

  ghost function StoreAlone(c: Codec, s: State, pid: nat, id: nat, store: Store): State {
    var begun := Step(c, s, BeginStore(pid, store));
    var half := WriteOne(c, begun, pid, id, |store.result.bytes|);
    WriteOne(c, half, pid, id, |c.encode(MetadataOf(c, store.fetch, store.result))|)
  }

  ghost function LoadAlone(c: Codec, s: State, pid: nat, fetch: Fetch): State {
    var begun := Step(c, s, BeginLoad(pid, fetch));
    var checked := Step(c, begun, Proceed(pid));
    var read := Step(c, checked, Proceed(pid));
    var both := Step(c, read, Proceed(pid));
    Step(c, both, Proceed(pid))
  }

  /** A load that nobody disturbs, with the quarantine that may follow. */
  ghost function LoadToEnd(c: Codec, s: State, pid: nat, fetch: Fetch): State {
    Step(c, Step(c, LoadAlone(c, s, pid, fetch), Proceed(pid)), Proceed(pid))
  }

  ghost predicate WouldAccept(c: Codec, s: State, fetch: Fetch) {
    var bytes, metaBytes := ReadFile(c, s, BytesFile), ReadFile(c, s, MetaFile);
    bytes.Some? && metaBytes.Some? && Accept(c, fetch, bytes.value, metaBytes.value).Some?
  }

  lemma ProceedIdle(c: Codec, s: State, pid: nat)
    requires ProcessOf(s, pid).Idle?
    ensures Step(c, s, Proceed(pid)) == s
  {
  }

  lemma QuarantineClears(c: Codec, s: State, pid: nat)
    requires ProcessOf(s, pid) == Quarantining(false)
    ensures Step(c, Step(c, s, Proceed(pid)), Proceed(pid))
         == Goes(s.(names := s.names - {BytesFile, MetaFile}), pid, Idle)
  {
    var once := Step(c, s, Proceed(pid));
    assert once == Goes(s.(names := s.names - {BytesFile}), pid, Quarantining(true));
    var twice := Step(c, once, Proceed(pid));
    assert twice.names == s.names - {BytesFile, MetaFile};
    assert twice.procs == s.procs[pid := Idle];
  }

  /** Without both files a load misses, and a lone file goes into quarantine. */
  lemma LoadWithoutPair(c: Codec, s: State, pid: nat, fetch: Fetch)
    requires ProcessOf(s, pid).Idle? && !(BytesFile in s.names && MetaFile in s.names)
    ensures LoadToEnd(c, s, pid, fetch) == Goes(s.(names := s.names - {BytesFile, MetaFile}), pid, Idle)
  {
    var begun := Step(c, s, BeginLoad(pid, fetch));
    assert begun == Goes(s, pid, Checking(fetch));
    var checked := Step(c, begun, Proceed(pid));
    var cleared := s.names - {BytesFile, MetaFile};
    if BytesFile in s.names || MetaFile in s.names {
      assert checked == Goes(s, pid, Quarantining(false));
      hide Step;
      QuarantineClears(c, checked, pid);
      ProceedIdle(c, Goes(s.(names := cleared), pid, Idle), pid);
    } else {
      assert cleared == s.names;
      assert checked == Goes(s, pid, Idle);
      hide Step;
      ProceedIdle(c, checked, pid);
    }
  }

  /** With both files it hits exactly if they are accepted and then leaves them; otherwise
      both go into quarantine. */
  lemma LoadWithPair(c: Codec, s: State, pid: nat, fetch: Fetch, bytes: Bytes, metaBytes: Bytes)
    requires ProcessOf(s, pid).Idle? && ReadFile(c, s, BytesFile) == Some(bytes) && ReadFile(c, s, MetaFile) == Some(metaBytes)
    ensures var r := Accept(c, fetch, bytes, metaBytes);
      LoadToEnd(c, s, pid, fetch) ==
      if r.Some? then Goes(s.(hits := s.hits + [Hit(fetch, r.value)]), pid, Idle)
      else Goes(s.(names := s.names - {BytesFile, MetaFile}), pid, Idle)
  {
    LoadReaches(c, s, pid, fetch, bytes, metaBytes);
    var r, last := Accept(c, fetch, bytes, metaBytes), LoadAlone(c, s, pid, fetch);
    hide Step, Accept;
    if r.Some? {
      ProceedIdle(c, last, pid);
    } else {
      QuarantineClears(c, last, pid);
    }
  }

  lemma LoadReaches(c: Codec, s: State, pid: nat, fetch: Fetch, bytes: Bytes, metaBytes: Bytes)
    requires ProcessOf(s, pid).Idle? && ReadFile(c, s, BytesFile) == Some(bytes) && ReadFile(c, s, MetaFile) == Some(metaBytes)
    ensures var r := Accept(c, fetch, bytes, metaBytes);
      LoadAlone(c, s, pid, fetch) ==
      if r.Some? then Goes(s.(hits := s.hits + [Hit(fetch, r.value)]), pid, Idle) else Goes(s, pid, Quarantining(false))
  {
    hide Accept, Step, LoadStep;
    LoadBegins(c, s, pid, fetch);
    LoadChecks(c, s, pid, fetch);
    LoadReads(c, s, pid, fetch, bytes, metaBytes);
    LoadDecides(c, s, pid, fetch, bytes, metaBytes);
  }

  lemma ProceedGoes(c: Codec, s: State, pid: nat, p: Process)
    ensures Step(c, Goes(s, pid, p), Proceed(pid)) == LoadStep(c, Goes(s, pid, p), pid, p)
    ensures forall q :: Goes(Goes(s, pid, p), pid, q) == Goes(s, pid, q)
    ensures forall n :: ReadFile(c, Goes(s, pid, p), n) == ReadFile(c, s, n)
  {
    forall q ensures Goes(Goes(s, pid, p), pid, q) == Goes(s, pid, q) {
      assert s.procs[pid := p][pid := q] == s.procs[pid := q];
    }
  }

  lemma LoadBegins(c: Codec, s: State, pid: nat, fetch: Fetch)
    requires ProcessOf(s, pid).Idle?
    ensures Step(c, s, BeginLoad(pid, fetch)) == Goes(s, pid, Checking(fetch))
  {
  }

  lemma LoadChecks(c: Codec, s: State, pid: nat, fetch: Fetch)
    requires BytesFile in s.names && MetaFile in s.names
    ensures Step(c, Goes(s, pid, Checking(fetch)), Proceed(pid)) == Goes(s, pid, ReadingBytes(fetch))
  {
    hide Step;
    ProceedGoes(c, s, pid, Checking(fetch));
  }

  lemma LoadReads(c: Codec, s: State, pid: nat, fetch: Fetch, bytes: Bytes, metaBytes: Bytes)
    requires ReadFile(c, s, BytesFile) == Some(bytes) && ReadFile(c, s, MetaFile) == Some(metaBytes)
    ensures Step(c, Goes(s, pid, ReadingBytes(fetch)), Proceed(pid)) == Goes(s, pid, ReadingMeta(fetch, bytes))
    ensures Step(c, Goes(s, pid, ReadingMeta(fetch, bytes)), Proceed(pid)) == Goes(s, pid, Deciding(fetch, bytes, metaBytes))
  {
    hide Step, ReadFile;
    ProceedGoes(c, s, pid, ReadingBytes(fetch));
    ProceedGoes(c, s, pid, ReadingMeta(fetch, bytes));
  }

  lemma LoadDecides(c: Codec, s: State, pid: nat, fetch: Fetch, bytes: Bytes, metaBytes: Bytes)
    ensures var r := Accept(c, fetch, bytes, metaBytes);
      Step(c, Goes(s, pid, Deciding(fetch, bytes, metaBytes)), Proceed(pid)) ==
      if r.Some? then Goes(s.(hits := s.hits + [Hit(fetch, r.value)]), pid, Idle) else Goes(s, pid, Quarantining(false))
  {
    hide Step, ReadFile, Accept;
    ProceedGoes(c, s, pid, Deciding(fetch, bytes, metaBytes));
  }

  /** What a load does that nobody disturbs: it hits exactly if both files are there and
      are accepted, and leaves the file names as they are; otherwise both names are free
      afterwards. It does nothing else. */
  lemma LoadExactly(c: Codec, s: State, pid: nat, fetch: Fetch)
    requires Inv(c, s) && ProcessOf(s, pid).Idle?
    ensures var t := LoadToEnd(c, s, pid, fetch);
      && ProcessOf(t, pid).Idle? && t.stores == s.stores && t.inodes == s.inodes
      && (forall p :: p != pid ==> ProcessOf(t, p) == ProcessOf(s, p))
      && t.names == (if WouldAccept(c, s, fetch) then s.names else s.names - {BytesFile, MetaFile})
      && (t.hits == s.hits <==> !WouldAccept(c, s, fetch))
      && |t.hits| <= |s.hits| + 1 && s.hits <= t.hits
  {
    hide LoadToEnd, Accept;
    if BytesFile in s.names && MetaFile in s.names {
      var bytes, metaBytes := ReadFile(c, s, BytesFile).value, ReadFile(c, s, MetaFile).value;
      LoadWithPair(c, s, pid, fetch, bytes, metaBytes);
    } else {
      LoadWithoutPair(c, s, pid, fetch);
    }
  }

  /** After a store that nobody disturbs, a matching load hits with its result, from
      any reachable state. */
  lemma StoreThenLoadHits(c: Codec, s: State, writer: nat, id: nat, store: Store, fetch: Fetch)
    requires Faithful(c) && Inv(c, s) && ProcessOf(s, writer).Idle? && Answers(store.fetch, fetch)
    requires TmpBytes(id) !in s.names && TmpMeta(id) !in s.names
    ensures var stored := StoreAlone(c, s, writer, id, store);
            LoadAlone(c, stored, writer, fetch).hits == s.hits + [Hit(fetch, store.result)]
  {
    hide WriteOne, LoadAlone, ReadFile, Inv;
    var text := c.encode(MetadataOf(c, store.fetch, store.result));
    var begun := Step(c, s, BeginStore(writer, store));
    StepKeeps(c, s, BeginStore(writer, store));
    WriteOnePublishes(c, begun, writer, id, |store.result.bytes|);
    var half := WriteOne(c, begun, writer, id, |store.result.bytes|);
    WriteOneKeeps(c, begun, writer, id, |store.result.bytes|);
    WriteOnePublishes(c, half, writer, id, |text|);
    var stored := WriteOne(c, half, writer, id, |text|);
    AcceptExactly(c, store, fetch, store.result.bytes);
    LoadReaches(c, stored, writer, fetch, store.result.bytes, text);
  }

  /** So a three-hourly ensemble product stored for one hour is hit for every other, and
      any product for its own hour. */
  lemma StoreServes(c: Codec, s: State, writer: nat, id: nat, store: Store, hour: nat)
    requires Faithful(c) && Inv(c, s) && ProcessOf(s, writer).Idle?
    requires TmpBytes(id) !in s.names && TmpMeta(id) !in s.names
    requires hour == store.fetch.request.forecastHour
      || ThreeHourlyEnsemble(store.fetch.request.model, store.fetch.request.product)
    ensures var stored := StoreAlone(c, s, writer, id, store);
      var fetch := store.fetch.(request := store.fetch.request.(forecastHour := hour));
      LoadAlone(c, stored, writer, fetch).hits == s.hits + [Hit(fetch, store.result)]
  {
    hide Faithful, Inv, StoreAlone, LoadAlone, Answers, ThreeHourlyEnsemble;
    var fetch := store.fetch.(request := store.fetch.request.(forecastHour := hour));
    AnswersExactly(store.fetch, fetch);
    StoreThenLoadHits(c, s, writer, id, store, fetch);
  }

  lemma WriteOneKeeps(c: Codec, s: State, pid: nat, id: nat, size: nat)
    requires Faithful(c) && Inv(c, s)
    ensures Inv(c, WriteOne(c, s, pid, id, size))
  {
    hide Step, Inv, Faithful;
    var created := Step(c, s, CreateTemporary(pid, id));
    StepKeeps(c, s, CreateTemporary(pid, id));
    StepKeeps(c, created, WriteChunk(pid, size));
    StepKeeps(c, Step(c, created, WriteChunk(pid, size)), RenameTemporary(pid));
  }
}
