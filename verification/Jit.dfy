/** The JIT engine and its kernel cache (omni-core/src/jit.rs). */
module Jit {
  import opened Prelude
  import opened Hashing
  import opened HashWindows
  import opened Dialect
  import opened ConstantFolding
  import opened OperatorFusion
  import opened DeadCode
  import opened Passes

  datatype Kernel = Kernel(name: string, payload: seq<Byte>, blockSize: (nat, nat, nat))

  datatype Input = Input(ptx: seq<Byte>, kernelId: Word)

  /** One engine: its backend, which byte strings are UTF-8 text, and the backend's code generator. */
  datatype Compiler = Compiler(
    backend: TargetBackend, isText: seq<Byte> -> bool, generate: seq<OmniOp> -> Result<Kernel>)

  predicate OccursAt(text: seq<Byte>, word: string, i: int) {
    0 <= i <= |text| - |word| && forall j | 0 <= j < |word| :: word[j] as int == text[i + j]
  }

  /** The text contains the word, given in ASCII. */
  predicate Contains(text: seq<Byte>, word: string) {
    exists i | 0 <= i <= |text| - |word| :: OccursAt(text, word, i)
  }

  /** Bytes that are not text are lifted as a placeholder that contains none of the words looked for. */
  predicate Mentions(c: Compiler, ptx: seq<Byte>, word: string) { c.isText(ptx) && Contains(ptx, word) }

  const LIFTED_TYPE: TensorType := TensorType([None, None], F16, RowMajor)

  function LiftedKind(c: Compiler, ptx: seq<Byte>): OpKind {
    if Mentions(c, ptx, "mma.sync") || Mentions(c, ptx, "wmma") then MatMul
    else if Mentions(c, ptx, "ex2.approx") && Mentions(c, ptx, "div.approx") then Softmax(-1)
    else if Mentions(c, ptx, "tanh.approx") || Mentions(c, ptx, "ex2.approx") then Unary(Exp)
    else OpaqueKernel(HashBytes(ptx))
  }

  function LiftedOp(c: Compiler, ptx: seq<Byte>): OmniOp {
    OmniOp(0, LiftedKind(c, ptx), ["v0", "v1"], "v2", map[], LIFTED_TYPE)
  }

  /** None of the words the lifter looks for. */
  ghost predicate Unrecognised(c: Compiler, ptx: seq<Byte>) {
    c.isText(ptx) ==> forall word | word in {"mma.sync", "wmma", "ex2.approx", "tanh.approx"} :: !Contains(ptx, word)
  }

  /**
   The one operation that a text lifts to: the matrix instructions decide first, then division beside the
   exponential; an unrecognised text is opaque, known by its hash.
   */
  lemma LiftedForms(c: Compiler, ptx: seq<Byte>)
    ensures var op := LiftedOp(c, ptx);
            && op == OmniOp(0, op.kind, ["v0", "v1"], "v2", map[], TensorType([None, None], F16, RowMajor))
            && (op.kind == MatMul <==> c.isText(ptx) && (Contains(ptx, "mma.sync") || Contains(ptx, "wmma")))
            && (op.kind == Softmax(-1) <==>
                  c.isText(ptx) && !Contains(ptx, "mma.sync") && !Contains(ptx, "wmma")
                  && Contains(ptx, "ex2.approx") && Contains(ptx, "div.approx"))
            && (op.kind == OpaqueKernel(HashBytes(ptx)) <==> Unrecognised(c, ptx))
            && (op.kind == MatMul || op.kind == Softmax(-1) || op.kind == Unary(Exp) || op.kind.OpaqueKernel?)
  {
    var words := {"mma.sync", "wmma", "ex2.approx", "tanh.approx"};
    assert "mma.sync" in words && "wmma" in words && "ex2.approx" in words && "tanh.approx" in words;
  }

  /** Lift, optimise, generate: what compilation without a cache returns. */
  function Uncached(c: Compiler, x: Input): Result<Kernel> {
    c.generate(Optimise(c.backend, [LiftedOp(c, x.ptx)]))
  }

  /** On a lifted module the pipeline only adds the tiling attributes. */
  lemma LiftedOptimised(c: Compiler, ptx: seq<Byte>)
    ensures Optimise(c.backend, [LiftedOp(c, ptx)]) == [TileOp(TileSize(c.backend), LiftedOp(c, ptx))]
  {
    var op := LiftedOp(c, ptx);
    assert [op][..0] == [];
    assert FoldAll([op]).0 == [op];
    assert Fuse([op]) == [op];
    var o := TileOp(TileSize(c.backend), op);
    assert Tile(TileSize(c.backend), [op]) == [o];
    assert [o][..0] == [] && Sweep([], 1, {} + InputsOf(o)) == [];
    assert Dce([o]) == [] + [o];
  }

  /** Unrecognised PTX texts that differ only within six consecutive bytes lift to different operations. */
  lemma OpaqueTextsDiffer(c: Compiler, pre: seq<Byte>, a: seq<Byte>, b: seq<Byte>, post: seq<Byte>)
    requires |a| == |b| <= 6 && a != b
    requires Unrecognised(c, pre + a + post) && Unrecognised(c, pre + b + post)
    ensures LiftedOp(c, pre + a + post) != LiftedOp(c, pre + b + post)
  {
    LiftedForms(c, pre + a + post);
    LiftedForms(c, pre + b + post);
    if HashBytes(pre + a + post) == HashBytes(pre + b + post) { HashBytesWindow(pre, a, b, post); }
  }

  // ---- The cached engine as a function ----

  type Cache = map<Word, Kernel>

  datatype Call = Compile(x: Input) | Clear

  function Key(x: Input): Word { HashPtx(x.ptx, x.kernelId) }

  function Answer(c: Compiler, cache: Cache, x: Input): Result<Kernel> {
    if Key(x) in cache then Ok(cache[Key(x)]) else Uncached(c, x)
  }

  function After(c: Compiler, cache: Cache, call: Call): Cache {
    match call
    case Clear => map[]
    case Compile(x) => if Key(x) !in cache && Uncached(c, x).Ok? then cache[Key(x) := Uncached(c, x).value] else cache
  }

  function CacheAfter(c: Compiler, calls: seq<Call>): Cache {
    if calls == [] then map[] else After(c, CacheAfter(c, calls[..|calls| - 1]), calls[|calls| - 1])
  }

  ghost predicate Over(calls: seq<Call>, inputs: iset<Input>) {
    forall call | call in calls && call.Compile? :: call.x in inputs
  }

  /** Every entry is what the pipeline makes, without error, of some compiled input with that key. */
  lemma {:induction false} EntriesAreOutputs(c: Compiler, calls: seq<Call>, inputs: iset<Input>, key: Word)
      returns (x: Input)
    requires Over(calls, inputs) && key in CacheAfter(c, calls)
    ensures x in inputs && Key(x) == key && Uncached(c, x) == Ok(CacheAfter(c, calls)[key])
  {
    var init, call := calls[..|calls| - 1], calls[|calls| - 1];
    assert call in calls;
    var before := CacheAfter(c, init);
    if call.Compile? && Key(call.x) == key && key !in before {
      x := call.x;
    } else {
      x := EntriesAreOutputs(c, init, inputs, key);
    }
  }

  /** Inputs that share a key with a compilable input compile to the same kernel. */
  ghost predicate KeysAgree(c: Compiler, inputs: iset<Input>) {
    forall x, y | x in inputs && y in inputs && Key(x) == Key(y) && Uncached(c, x).Ok? ::
        Uncached(c, y) == Uncached(c, x)
  }

  ghost predicate Transparent(c: Compiler, inputs: iset<Input>) {
    forall calls, y | Over(calls, inputs) && y in inputs :: Answer(c, CacheAfter(c, calls), y) == Uncached(c, y)
  }

  /**
   Over every sequence of compilations and flushes the cached engine answers exactly as the uncached
   pipeline does, if and only if inputs with equal keys agree.
   */
  lemma CacheTransparentIff(c: Compiler, inputs: iset<Input>)
    ensures Transparent(c, inputs) <==> KeysAgree(c, inputs)
  {
    if KeysAgree(c, inputs) {
      forall calls, y | Over(calls, inputs) && y in inputs
        ensures Answer(c, CacheAfter(c, calls), y) == Uncached(c, y)
      {
        if Key(y) in CacheAfter(c, calls) {
          var x := EntriesAreOutputs(c, calls, inputs, Key(y));
        }
      }
    }
    if Transparent(c, inputs) {
      forall x, y | x in inputs && y in inputs && Key(x) == Key(y) && Uncached(c, x).Ok?
        ensures Uncached(c, y) == Uncached(c, x)
      {
        var calls := [Compile(x)];
        assert calls[..0] == [];
        assert CacheAfter(c, calls) == map[Key(x) := Uncached(c, x).value];
        assert Answer(c, CacheAfter(c, calls), y) == Uncached(c, y);
      }
    }
  }

  /** One PTX text under any number of kernel ids: no two ids share a key, so the cache is transparent. */
  lemma SameTextTransparent(c: Compiler, ptx: seq<Byte>, inputs: iset<Input>)
    requires forall x | x in inputs :: x.ptx == ptx
    ensures Transparent(c, inputs)
    ensures forall x, y | x in inputs && y in inputs && x != y :: Key(x) != Key(y)
  {
    forall x, y | x in inputs && y in inputs && Key(x) == Key(y) ensures x == y {
      HashPtxSeparatesIds(ptx, x.kernelId, y.kernelId);
    }
    CacheTransparentIff(c, inputs);
  }

  /** What a text compiles to, under whatever id. */
  function Compiled(c: Compiler, ptx: seq<Byte>): Result<Kernel> { Uncached(c, Input(ptx, 0)) }

  /** After one text has been compiled, another that compiles differently gets its kernel, under some id. */
  lemma WrongKernelServed(c: Compiler, p: seq<Byte>, id: Word, q: seq<Byte>) returns (id': Word)
    requires Compiled(c, p).Ok? && Compiled(c, q) != Compiled(c, p)
    ensures var answer := Answer(c, CacheAfter(c, [Compile(Input(p, id))]), Input(q, id'));
            answer == Compiled(c, p) && answer != Uncached(c, Input(q, id'))
  {
    id' := CollidingId(p, id, q);
    assert [Compile(Input(p, id))][..0] == [];
    assert CacheAfter(c, [Compile(Input(p, id))]) == map[Key(Input(p, id)) := Compiled(c, p).value];
  }

  /** The inputs that carry one of these texts, under every id. */
  ghost function UnderAllIds(texts: iset<seq<Byte>>): iset<Input> { iset x: Input | x.ptx in texts }

  ghost predicate CompileAlike(c: Compiler, texts: iset<seq<Byte>>) {
    forall p, q | p in texts && q in texts && Compiled(c, p).Ok? :: Compiled(c, q) == Compiled(c, p)
  }

  /** Under arbitrary kernel ids the cache is transparent exactly when all texts compile alike, or none compiles. */
  lemma TextsShareCacheIff(c: Compiler, texts: iset<seq<Byte>>)
    ensures Transparent(c, UnderAllIds(texts)) <==> CompileAlike(c, texts)
  {
    CacheTransparentIff(c, UnderAllIds(texts));
    if CompileAlike(c, texts) {
      forall x, y | x in UnderAllIds(texts) && y in UnderAllIds(texts) && Uncached(c, x).Ok?
        ensures Uncached(c, y) == Uncached(c, x)
      {
        assert Compiled(c, x.ptx) == Uncached(c, x) && Compiled(c, y.ptx) == Uncached(c, y);
      }
    }
    if KeysAgree(c, UnderAllIds(texts)) {
      forall p, q | p in texts && q in texts && Compiled(c, p).Ok? ensures Compiled(c, q) == Compiled(c, p) {
        var id := CollidingId(p, 0, q);
        var x, y := Input(p, 0), Input(q, id);
        assert x in UnderAllIds(texts) && y in UnderAllIds(texts) && Key(x) == Key(y);
        assert Uncached(c, y) == Uncached(c, x);
      }
    }
  }

  // ---- Compilations on several threads ----

  /**
   Lookup and insertion are separate atomic accesses to the shared map, so compilations overlap: a
   thread whose lookup missed is pending until it inserts and answers.
   */
  datatype Event = Lookup(x: Input) | Finish(x: Input) | Flush

  datatype Shared = Shared(cache: Cache, pending: multiset<Input>, answers: seq<(Input, Result<Kernel>)>)

  function Happen(c: Compiler, s: Shared, e: Event): Shared {
    match e
    case Flush => s.(cache := map[])
    case Lookup(x) =>
      if Key(x) in s.cache then s.(answers := s.answers + [(x, Ok(s.cache[Key(x)]))])
      else s.(pending := s.pending + multiset{x})
    case Finish(x) =>
      if x !in s.pending then s
      else Shared(if Uncached(c, x).Ok? then s.cache[Key(x) := Uncached(c, x).value] else s.cache,
                  s.pending - multiset{x}, s.answers + [(x, Uncached(c, x))])
  }

  function History(c: Compiler, events: seq<Event>): Shared {
    if events == [] then Shared(map[], multiset{}, [])
    else Happen(c, History(c, events[..|events| - 1]), events[|events| - 1])
  }

  ghost predicate EntriesFaithful(c: Compiler, inputs: iset<Input>, cache: Cache) {
    forall k | k in cache :: exists x :: x in inputs && Key(x) == k && Uncached(c, x) == Ok(cache[k])
  }

  ghost predicate AnswersFaithful(c: Compiler, inputs: iset<Input>, answers: seq<(Input, Result<Kernel>)>) {
    forall a | a in answers :: a.0 in inputs && a.1 == Uncached(c, a.0)
  }

  ghost predicate Faithful(c: Compiler, inputs: iset<Input>, s: Shared) {
    && (forall x | x in s.pending :: x in inputs)
    && EntriesFaithful(c, inputs, s.cache) && AnswersFaithful(c, inputs, s.answers)
  }

  lemma InsertFaithful(c: Compiler, inputs: iset<Input>, cache: Cache, x: Input)
    requires EntriesFaithful(c, inputs, cache) && x in inputs && Uncached(c, x).Ok?
    ensures EntriesFaithful(c, inputs, cache[Key(x) := Uncached(c, x).value])
  {
    var cache' := cache[Key(x) := Uncached(c, x).value];
    forall k | k in cache' ensures exists y :: y in inputs && Key(y) == k && Uncached(c, y) == Ok(cache'[k]) {
      if k != Key(x) {
        var y :| y in inputs && Key(y) == k && Uncached(c, y) == Ok(cache[k]);
      }
    }
  }

  lemma HitFaithful(c: Compiler, inputs: iset<Input>, cache: Cache, x: Input)
    requires KeysAgree(c, inputs) && EntriesFaithful(c, inputs, cache) && x in inputs && Key(x) in cache
    ensures Uncached(c, x) == Ok(cache[Key(x)])
  {
    var y :| y in inputs && Key(y) == Key(x) && Uncached(c, y) == Ok(cache[Key(x)]);
    assert Uncached(c, x) == Uncached(c, y);
  }

  lemma HappenFaithful(c: Compiler, inputs: iset<Input>, s: Shared, e: Event)
    requires KeysAgree(c, inputs) && Faithful(c, inputs, s)
    requires e.Lookup? ==> e.x in inputs
    ensures Faithful(c, inputs, Happen(c, s, e))
  {
    match e
    case Flush =>
    case Lookup(x) => if Key(x) in s.cache { HitFaithful(c, inputs, s.cache, x); }
    case Finish(x) => if x in s.pending && Uncached(c, x).Ok? { InsertFaithful(c, inputs, s.cache, x); }
  }

  /** However compilations and flushes interleave, every answer is the uncached pipeline's. */
  lemma {:induction false} OverlappingCompilationsFaithful(c: Compiler, inputs: iset<Input>, events: seq<Event>)
    requires KeysAgree(c, inputs)
    requires forall e | e in events && e.Lookup? :: e.x in inputs
    ensures Faithful(c, inputs, History(c, events))
  {
    if events != [] {
      assert events[|events| - 1] in events;
      OverlappingCompilationsFaithful(c, inputs, events[..|events| - 1]);
      HappenFaithful(c, inputs, History(c, events[..|events| - 1]), events[|events| - 1]);
    }
  }

  ghost predicate Asks(events: seq<Event>, inputs: iset<Input>) {
    forall e | e in events && e.Lookup? :: e.x in inputs
  }

  ghost predicate AlwaysFaithful(c: Compiler, inputs: iset<Input>) {
    forall events: seq<Event> | Asks(events, inputs) :: Faithful(c, inputs, History(c, events))
  }

  function Lookups(events: seq<Event>): nat {
    if events == [] then 0 else Lookups(events[..|events| - 1]) + if events[|events| - 1].Lookup? then 1 else 0
  }

  /** Each compilation that was begun is pending or has been answered, once. */
  lemma {:induction false} EveryLookupAnsweredOnce(c: Compiler, events: seq<Event>)
    ensures |History(c, events).answers| + |History(c, events).pending| == Lookups(events)
  {
    if events != [] { EveryLookupAnsweredOnce(c, events[..|events| - 1]); }
  }

  lemma HistorySnoc(c: Compiler, events: seq<Event>, e: Event)
    ensures History(c, events + [e]) == Happen(c, History(c, events), e)
  {
    assert (events + [e])[..|events|] == events;
  }

  function Shadowing(x: Input, y: Input): seq<Event> { [] + [Lookup(x)] + [Finish(x)] + [Lookup(y)] }

  /** Looked up after another input with its key was inserted, y is answered with that input's kernel. */
  lemma SharedKeyAnswer(c: Compiler, x: Input, y: Input)
    requires Key(x) == Key(y) && Uncached(c, x).Ok?
    ensures (y, Uncached(c, x)) in History(c, Shadowing(x, y)).answers
  {
    HistorySnoc(c, [], Lookup(x));
    HistorySnoc(c, [] + [Lookup(x)], Finish(x));
    HistorySnoc(c, [] + [Lookup(x)] + [Finish(x)], Lookup(y));
    var s := History(c, [] + [Lookup(x)] + [Finish(x)]);
    assert Key(y) in s.cache && Ok(s.cache[Key(y)]) == Uncached(c, x);
    var answers := History(c, Shadowing(x, y)).answers;
    assert answers[|answers| - 1] == (y, Uncached(c, x));
  }

  lemma FaithfulKeysAgree(c: Compiler, inputs: iset<Input>, x: Input, y: Input)
    requires AlwaysFaithful(c, inputs)
    requires x in inputs && y in inputs && Key(x) == Key(y) && Uncached(c, x).Ok?
    ensures Uncached(c, y) == Uncached(c, x)
  {
    assert Asks(Shadowing(x, y), inputs);
    var answers := History(c, Shadowing(x, y)).answers;
    assert AnswersFaithful(c, inputs, answers) by { assert Faithful(c, inputs, History(c, Shadowing(x, y))); }
    SharedKeyAnswer(c, x, y);
  }

  /** Every interleaving answers as the pipeline does, exactly when inputs with equal keys agree. */
  lemma OverlappingFaithfulIff(c: Compiler, inputs: iset<Input>)
    ensures AlwaysFaithful(c, inputs) <==> KeysAgree(c, inputs)
  {
    if KeysAgree(c, inputs) {
      forall events: seq<Event> | Asks(events, inputs) ensures Faithful(c, inputs, History(c, events)) {
        OverlappingCompilationsFaithful(c, inputs, events);
      }
    }
    if AlwaysFaithful(c, inputs) {
      forall x, y | x in inputs && y in inputs && Key(x) == Key(y) && Uncached(c, x).Ok?
        ensures Uncached(c, y) == Uncached(c, x)
      {
        FaithfulKeysAgree(c, inputs, x, y);
      }
    }
  }

  class JitEngine {
    const compiler: Compiler
    var kernelCache: Cache

    constructor (compiler: Compiler)
      ensures this.compiler == compiler && kernelCache == map[]
    {
      this.compiler := compiler;
      kernelCache := map[];
    }

    method CompilePtx(x: Input) returns (r: Result<Kernel>)
      modifies this
      ensures r == Answer(compiler, old(kernelCache), x)
      ensures kernelCache == After(compiler, old(kernelCache), Compile(x))
      ensures var key := HashPtx(x.ptx, x.kernelId);
              if key in old(kernelCache) then r == Ok(old(kernelCache)[key]) && kernelCache == old(kernelCache)
              else
                && r == Uncached(compiler, x)
                && kernelCache == if r.Ok? then old(kernelCache)[key := r.value] else old(kernelCache)
    {
      var key := ComputeHashPtx(x.ptx, x.kernelId);
      if key in kernelCache { return Ok(kernelCache[key]); }
      var m := new OmniModule();
      var _ := m.PushOp(LiftedOp(compiler, x.ptx));
      assert m.ops == [LiftedOp(compiler, x.ptx)];
      var manager := new PassManager(compiler.backend);
      manager.Run(m);
      r := compiler.generate(m.ops);
      if r.Ok? { kernelCache := kernelCache[key := r.value]; }
    }

    method ClearCache()
      modifies this
      ensures kernelCache == After(compiler, old(kernelCache), Clear) == map[]
    {
      kernelCache := map[];
    }
  }
}
