/** `ShaderProgramManager::Impl` of the OpenGL renderer: it turns the
    emulated GPU's register state into OpenGL shader stages, caches the
    stages by the hash of their generated code, and binds them either as a
    program pipeline (separable mode) or as one linked program per stage
    triple (monolithic mode), whose driver binaries it persists in the
    program-binary cache file. */
module GlShaderManager {
  import opened Bytes
  import opened ProgramCacheFormat

  datatype Option<T> = None | Some(value: T)

  /** Generated GLSL source, as the bytes `Common::ComputeHash64` reads. */
  type Code = seq<byte>

  /** The byte image of a shader configuration struct (PicaVSConfig,
      PicaFixedGSConfig or PicaFSConfig), which is what gets hashed. */
  type ConfigKey = seq<byte>

  /** The emulated shader unit's program and swizzle data. */
  type ShaderSetup = seq<byte>

  /** An OpenGL object name; 0 is the name of no object. */
  type Handle = nat

  /** The hash function and the GLSL generators the manager calls. */
  datatype Backend = Backend(
    computeHash64: seq<byte> -> u64,
    generateVertexShader: (ShaderSetup, ConfigKey, bool) -> Code,
    generateFixedGeometryShader: (ConfigKey, bool) -> Code,
    generateFragmentShader: (ConfigKey, bool) -> Code,
    generateTrivialVertexShader: bool -> Code)

  datatype ShaderType = VertexShader | GeometryShader | FragmentShader

  /** A stage is a shader object, or a one-shader program object when
      separable programs are used. */
  datatype ObjectKind = ShaderObject | ProgramObject

  function KindFor(separable: bool): (k: ObjectKind)
    ensures k == ProgramObject <==> separable
  {
    if separable then ProgramObject else ShaderObject
  }

  /** What a stage was created from. */
  datatype StageSource = StageSource(code: Code, stageType: ShaderType)

  /** `OGLShaderStage`: the hash it was created under and its object;
      `source` is None, and the handle 0, while it was never created. */
  datatype Stage = Stage(kind: ObjectKind, hash: u64, handle: Handle, source: Option<StageSource>)

  /** A pointer to a stage: the entry of `shaders` under a key, or one of the
      two trivial stages the manager owns. */
  datatype StageRef = Cached(key: u64) | TrivialVertex | TrivialGeometry

  /** `current_shaders`; None stands for a null pointer. */
  datatype CurrentShaders = CurrentShaders(vs: Option<StageRef>, gs: Option<StageRef>, fs: Option<StageRef>)

  /** An entry of `shaders_ref`, pointing at the stage under `codeHash` or null. */
  function RefTo(entry: Option<u64>): (r: Option<StageRef>)
    ensures r.None? <==> entry.None?
    ensures entry.Some? ==> r == Some(Cached(entry.value))
  {
    match entry
    case None => None
    case Some(codeHash) => Some(Cached(codeHash))
  }

  /** How a linked program got its code. */
  datatype ProgramOrigin =
    | InstalledBinary(binary: ProgramBinary)
    | LinkedStages(vs: Handle, gs: Handle, fs: Handle)

  /** An `OGLProgram` of the program cache that has been created. */
  datatype LinkedProgram = LinkedProgram(handle: Handle, origin: ProgramOrigin)

  /** `state.draw`: what the next draw call uses. */
  datatype DrawBinding = DrawBinding(shaderProgram: Handle, programPipeline: Handle)

  const VERTEX_SHADER_BIT: int := 0x1
  const FRAGMENT_SHADER_BIT: int := 0x2
  const GEOMETRY_SHADER_BIT: int := 0x4
  const ALL_SHADER_BITS: int := 0x7

  /** One `glUseProgramStages(pipeline, stages, program)` call. */
  datatype PipelineCall = UseProgramStages(pipeline: Handle, stages: int, program: Handle)

  /** The `std::array<u64, 3>` of the three stage hashes, as the bytes hashed
      into a program key. */
  function ProgramKeyBytes(vsHash: u64, gsHash: u64, fsHash: u64): (r: seq<byte>)
    ensures |r| == 24
  {
    ToLE(vsHash, 8) + ToLE(gsHash, 8) + ToLE(fsHash, 8)
  }

  /** The key bytes determine the three stage hashes: two stage triples get
      the same program key only through a collision of ComputeHash64. */
  lemma ProgramKeyBytesInjective(a: u64, b: u64, c: u64, a': u64, b': u64, c': u64)
    requires ProgramKeyBytes(a, b, c) == ProgramKeyBytes(a', b', c')
    ensures a == a' && b == b' && c == c'
  {
    var r, r' := ProgramKeyBytes(a, b, c), ProgramKeyBytes(a', b', c');
    assert r[..8] == ToLE(a, 8) && r'[..8] == ToLE(a', 8);
    assert r[8..16] == ToLE(b, 8) && r'[8..16] == ToLE(b', 8);
    assert r[16..] == ToLE(c, 8) && r'[16..] == ToLE(c', 8);
    DecodeToLE64(a);
    DecodeToLE64(a');
    DecodeToLE64(b);
    DecodeToLE64(b');
    DecodeToLE64(c);
    DecodeToLE64(c');
  }

  /** `shaders.emplace(hash, OGLShaderStage{separable})` followed, when the
      entry is new, by `Create(code, type, hash)` with object name `handle`. */
  function EmplaceStage(shaders: map<u64, Stage>, hash: u64, src: StageSource, kind: ObjectKind, handle: Handle): (r: map<u64, Stage>)
    ensures r.Keys == shaders.Keys + {hash}
    ensures forall k :: k in shaders ==> r[k] == shaders[k]
    ensures hash !in shaders ==> r[hash] == Stage(kind, hash, handle, Some(src))
  {
    if hash in shaders then shaders else shaders[hash := Stage(kind, hash, handle, Some(src))]
  }

  /** What `CreateProgram` yields for a program key `hash`, given the binary
      cache, the name `handle` of the new program object, the driver's
      verdict `installOk` on a recorded binary and the binary `linked` it
      reports after linking: the program and the new binary cache. */
  function CreateOutcome(cache: BinaryTable, hash: u64, handle: Handle, vs: Handle, gs: Handle, fs: Handle,
                         installOk: bool, linked: ProgramBinary): (r: (LinkedProgram, BinaryTable))
    ensures r.0.handle == handle
    // a recorded binary the driver accepts is used as is, and nothing is recorded
    ensures hash in cache && installOk ==> r == (LinkedProgram(handle, InstalledBinary(cache[hash])), cache)
    // a recorded binary the driver rejects costs the whole cache; the stages are linked
    ensures hash in cache && !installOk ==>
      r.0.origin == LinkedStages(vs, gs, fs) && r.1 == if linked.binary == [] then map[] else map[hash := linked]
    // without a recorded binary the stages are linked and a non-empty binary recorded
    ensures hash !in cache ==>
      r.0.origin == LinkedStages(vs, gs, fs) && r.1 == if linked.binary == [] then cache else cache[hash := linked]
  {
    if hash in cache && installOk then (LinkedProgram(handle, InstalledBinary(cache[hash])), cache)
    else
      var kept := if hash in cache then map[] else cache;
      (LinkedProgram(handle, LinkedStages(vs, gs, fs)), if linked.binary == [] then kept else Emplace(kept, hash, linked))
  }

  class ShaderProgramManager {
    const separable: bool
    const isAmd: bool
    const backend: Backend

    var trivialVertexShader: Stage
    const trivialGeometryShader: Stage
    /** `pipeline.handle`: created only in separable mode. */
    const pipeline: Handle

    var current: CurrentShaders
    var binaryCache: BinaryTable
    var shadersRef: map<u64, Option<u64>>
    var shaders: map<u64, Stage>
    var programCache: map<u64, LinkedProgram>

    /** The `glUseProgramStages` calls made so far. */
    var pipelineLog: seq<PipelineCall>
    /** How many times a GLSL generator ran. */
    var generated: nat
    /** The next OpenGL object name to hand out. */
    var nextHandle: nat

    /** A created stage, under the key it was created with: vertex and
        fragment stages are keyed by the hash of their own code. */
    ghost predicate StageOk(st: Stage, key: u64) {
      && st.hash == key && st.kind == KindFor(separable)
      && st.handle != 0 && st.source.Some?
      && (st.source.value.stageType != GeometryShader ==> backend.computeHash64(st.source.value.code) == key)
    }

    ghost predicate StagesOk()
      reads this`shaders
    {
      forall k :: k in shaders ==> StageOk(shaders[k], k)
    }

    /** Every non-null entry of `shaders_ref` points into `shaders`. */
    ghost predicate RefsOk()
      reads this`shadersRef, this`shaders
    {
      forall k :: k in shadersRef && shadersRef[k].Some? ==> shadersRef[k].value in shaders
    }

    /** Both caches stay empty in separable mode; every cached program exists. */
    ghost predicate ProgramsOk()
      reads this`programCache, this`binaryCache
    {
      && (separable ==> programCache == map[] && binaryCache == map[])
      && (forall k :: k in programCache ==> programCache[k].handle != 0)
    }

    ghost predicate TrivialOk()
      reads this`trivialVertexShader
    {
      && trivialVertexShader.hash == 0 && trivialVertexShader.kind == KindFor(separable)
      && trivialVertexShader.handle != 0
      && trivialGeometryShader == Stage(KindFor(separable), 0, 0, None)
    }

    ghost predicate Resolves(r: StageRef)
      reads this`shaders
    {
      r.Cached? ==> r.key in shaders
    }

    /** Each slot of `current_shaders` is null or points at a stage of its kind
        of slot: the fragment slot only at a cached stage. */
    ghost predicate CurrentOk()
      reads this`current, this`shaders
    {
      && (current.vs.Some? ==> Resolves(current.vs.value) && current.vs.value != TrivialGeometry)
      && (current.gs.Some? ==> Resolves(current.gs.value) && current.gs.value != TrivialVertex)
      && (current.fs.Some? ==> current.fs.value.Cached? && Resolves(current.fs.value))
    }

    ghost predicate Valid()
      reads this
    {
      && (separable <==> pipeline != 0) && nextHandle != 0
      && StagesOk() && RefsOk() && ProgramsOk() && TrivialOk() && CurrentOk()
    }

    /** The stage a pointer designates. */
    function StageOf(r: StageRef): Stage
      reads this`shaders, this`trivialVertexShader
      requires Resolves(r)
    {
      match r
      case Cached(key) => shaders[key]
      case TrivialVertex => trivialVertexShader
      case TrivialGeometry => trivialGeometryShader
    }

    /** `Impl(separable, is_amd)`: a pipeline in separable mode, otherwise the
        program-binary cache is loaded when the shader cache is enabled; then
        the trivial vertex shader is created with hash 0. */
    constructor (separable: bool, isAmd: bool, backend: Backend, useShaderCache: bool, file: CacheFile)
      modifies file
      ensures Valid()
      ensures this.separable == separable && this.isAmd == isAmd && this.backend == backend
      ensures current == CurrentShaders(None, None, None)
      ensures shadersRef == map[] && shaders == map[] && programCache == map[] && pipelineLog == []
      ensures (separable || !useShaderCache) ==> binaryCache == map[] && file.State() == old(file.State())
      ensures !separable && useShaderCache ==> (file.State(), binaryCache) == AfterLoad(old(file.State()), map[])
      ensures trivialVertexShader.source == Some(StageSource(backend.generateTrivialVertexShader(separable), VertexShader))
      ensures generated == 1
    {
      this.separable := separable;
      this.isAmd := isAmd;
      this.backend := backend;
      trivialGeometryShader := Stage(KindFor(separable), 0, 0, None);
      pipeline := if separable then 1 else 0;
      nextHandle := if separable then 2 else 1;
      current := CurrentShaders(None, None, None);
      binaryCache := map[];
      shadersRef := map[];
      shaders := map[];
      programCache := map[];
      pipelineLog := [];
      generated := 0;
      trivialVertexShader := Stage(KindFor(separable), 0, 0, None);
      new;
      if !separable && useShaderCache {
        LoadProgramCache(file);
      }
      var code := backend.generateTrivialVertexShader(separable);
      generated := generated + 1;
      trivialVertexShader := Stage(KindFor(separable), 0, nextHandle, Some(StageSource(code, VertexShader)));
      nextHandle := nextHandle + 1;
    }

    /** `~Impl()`: the program-binary cache is saved in monolithic mode when
        the shader cache is enabled. `order` is the table's iteration order,
        `openOk` whether the file could be opened, `capacity` the room on disk. */
    method Destroy(useShaderCache: bool, file: CacheFile, openOk: bool, capacity: nat, order: seq<u64>)
      requires IsEnumeration(order, binaryCache.Keys)
      modifies file
      ensures !separable && useShaderCache ==> file.State() == AfterSave(old(file.State()), binaryCache, order, openOk, capacity)
      ensures separable || !useShaderCache ==> file.State() == old(file.State())
    {
      if !separable && useShaderCache {
        SaveProgramCache(file, openOk, capacity, order);
      }
    }

    /** Creates, or finds, the stage for `code` under its code hash. */
    method CacheStage(codeHash: u64, src: StageSource)
      requires Valid()
      requires src.stageType != GeometryShader ==> backend.computeHash64(src.code) == codeHash
      modifies this`shaders, this`nextHandle
      ensures Valid()
      ensures shaders == EmplaceStage(old(shaders), codeHash, src, KindFor(separable), old(nextHandle))
      ensures nextHandle == old(nextHandle) + if codeHash in old(shaders) then 0 else 1
    {
      if codeHash !in shaders {
        shaders := shaders[codeHash := Stage(KindFor(separable), codeHash, nextHandle, Some(src))];
        nextHandle := nextHandle + 1;
      }
    }

    /** `UseProgrammableVertexShader`: the vertex stage for a configuration.
        A configuration seen before reuses its recorded stage (or its null)
        without generating or compiling anything; a new one generates code,
        records null for empty code, and otherwise shares the stage of any
        configuration with the same code hash. The result tells whether a
        programmable stage is now selected. */
    method UseProgrammableVertexShader(key: ConfigKey, setup: ShaderSetup) returns (programmable: bool)
      requires Valid()
      modifies this`shadersRef, this`shaders, this`current, this`generated, this`nextHandle
      ensures Valid()
      ensures programmable <==> current.vs.Some?
      ensures current.gs == old(current.gs) && current.fs == old(current.fs)
      ensures var keyHash := backend.computeHash64(key);
        if keyHash in old(shadersRef) then
          && current.vs == RefTo(old(shadersRef)[keyHash])
          && shadersRef == old(shadersRef) && shaders == old(shaders)
          && generated == old(generated) && nextHandle == old(nextHandle)
        else
          var code := backend.generateVertexShader(setup, key, separable);
          && generated == old(generated) + 1
          && if code == [] then
               && shadersRef == old(shadersRef)[keyHash := None] && current.vs == None
               && shaders == old(shaders) && nextHandle == old(nextHandle)
             else
               var codeHash := backend.computeHash64(code);
               && shadersRef == old(shadersRef)[keyHash := Some(codeHash)]
               && current.vs == Some(Cached(codeHash))
               && shaders == EmplaceStage(old(shaders), codeHash, StageSource(code, VertexShader), KindFor(separable), old(nextHandle))
               && nextHandle == old(nextHandle) + if codeHash in old(shaders) then 0 else 1
    {
      var keyHash := backend.computeHash64(key);
      if keyHash !in shadersRef {
        var code := backend.generateVertexShader(setup, key, separable);
        generated := generated + 1;
        if code == [] {
          shadersRef := shadersRef[keyHash := None];
          current := current.(vs := None);
        } else {
          var codeHash := backend.computeHash64(code);
          CacheStage(codeHash, StageSource(code, VertexShader));
          shadersRef := shadersRef[keyHash := Some(codeHash)];
          current := current.(vs := Some(Cached(codeHash)));
        }
      } else {
        current := current.(vs := RefTo(shadersRef[keyHash]));
      }
      programmable := current.vs.Some?;
    }

    /** `UseFixedGeometryShader`: the geometry stage is looked up in `shaders`
        directly by the configuration hash, and its code is generated only
        when that entry is new. */
    method UseFixedGeometryShader(key: ConfigKey)
      requires Valid()
      modifies this`shaders, this`current, this`generated, this`nextHandle
      ensures Valid()
      ensures current == old(current).(gs := Some(Cached(backend.computeHash64(key))))
      ensures var keyHash := backend.computeHash64(key);
        && shaders == EmplaceStage(old(shaders), keyHash,
             StageSource(backend.generateFixedGeometryShader(key, separable), GeometryShader),
             KindFor(separable), old(nextHandle))
        && var added := if keyHash in old(shaders) then 0 else 1;
           generated == old(generated) + added && nextHandle == old(nextHandle) + added
    {
      var keyHash := backend.computeHash64(key);
      if keyHash !in shaders {
        var code := backend.generateFixedGeometryShader(key, separable);
        generated := generated + 1;
        CacheStage(keyHash, StageSource(code, GeometryShader));
      }
      current := current.(gs := Some(Cached(keyHash)));
    }

    /** `UseFragmentShader`: as for the vertex stage, except that generated
        fragment code is never empty-checked, so a new configuration always
        gets a stage. A known configuration reuses its entry, which is null
        when its hash collides with a vertex configuration of empty code. */
    method UseFragmentShader(key: ConfigKey)
      requires Valid()
      modifies this`shadersRef, this`shaders, this`current, this`generated, this`nextHandle
      ensures Valid()
      ensures current.vs == old(current.vs) && current.gs == old(current.gs)
      ensures var keyHash := backend.computeHash64(key);
        if keyHash in old(shadersRef) then
          && current.fs == RefTo(old(shadersRef)[keyHash])
          && shadersRef == old(shadersRef) && shaders == old(shaders)
          && generated == old(generated) && nextHandle == old(nextHandle)
        else
          var code := backend.generateFragmentShader(key, separable);
          var codeHash := backend.computeHash64(code);
          && generated == old(generated) + 1
          && shadersRef == old(shadersRef)[keyHash := Some(codeHash)]
          && current.fs == Some(Cached(codeHash))
          && shaders == EmplaceStage(old(shaders), codeHash, StageSource(code, FragmentShader), KindFor(separable), old(nextHandle))
          && nextHandle == old(nextHandle) + if codeHash in old(shaders) then 0 else 1
    {
      var keyHash := backend.computeHash64(key);
      if keyHash !in shadersRef {
        var code := backend.generateFragmentShader(key, separable);
        generated := generated + 1;
        var codeHash := backend.computeHash64(code);
        CacheStage(codeHash, StageSource(code, FragmentShader));
        shadersRef := shadersRef[keyHash := Some(codeHash)];
        current := current.(fs := Some(Cached(codeHash)));
      } else {
        current := current.(fs := RefTo(shadersRef[keyHash]));
      }
    }

    method UseTrivialVertexShader()
      requires Valid()
      modifies this`current
      ensures Valid()
      ensures current == old(current).(vs := Some(TrivialVertex))
      ensures StageOf(current.vs.value).hash == 0
    {
      current := current.(vs := Some(TrivialVertex));
    }

    method UseTrivialGeometryShader()
      requires Valid()
      modifies this`current
      ensures Valid()
      ensures current == old(current).(gs := Some(TrivialGeometry))
      ensures StageOf(current.gs.value) == Stage(KindFor(separable), 0, 0, None)
    {
      current := current.(gs := Some(TrivialGeometry));
    }

    /** `CreateProgram`: a binary recorded under `hash` is installed first;
        if the driver rejects it the whole binary cache is dropped. Without an
        installed binary the stages are linked, and the binary the driver
        reports for the new program (`linked`) is recorded when non-empty.
        `installOk` is the driver's verdict on the recorded binary. */
    method CreateProgram(hash: u64, vs: Handle, gs: Handle, fs: Handle, installOk: bool, linked: ProgramBinary)
        returns (program: LinkedProgram)
      requires Valid() && !separable
      modifies this`binaryCache, this`nextHandle
      ensures Valid()
      ensures nextHandle == old(nextHandle) + 1
      ensures (program, binaryCache) == CreateOutcome(old(binaryCache), hash, old(nextHandle), vs, gs, fs, installOk, linked)
    {
      var installed := false;
      if hash in binaryCache {
        if installOk {
          program := LinkedProgram(nextHandle, InstalledBinary(binaryCache[hash]));
          installed := true;
        } else {
          binaryCache := map[];
        }
      }
      if !installed {
        program := LinkedProgram(nextHandle, LinkedStages(vs, gs, fs));
        if linked.binary != [] {
          binaryCache := Emplace(binaryCache, hash, linked);
        }
      }
      nextHandle := nextHandle + 1;
    }

    /** `ApplyTo`: makes the selected stages current for drawing.
        Separable: on AMD all stages are first reset, then the three stages
        are bound to the pipeline one by one and the pipeline is published.
        Monolithic: the program keyed by the hash of the three stage hashes
        is published, and it is created only when the key is new. */
    method ApplyTo(installOk: bool, linked: ProgramBinary) returns (draw: DrawBinding)
      requires Valid()
      requires current.vs.Some? && current.gs.Some? && current.fs.Some?
      modifies this`pipelineLog, this`programCache, this`binaryCache, this`nextHandle
      ensures Valid()
      ensures var vs, gs, fs := StageOf(current.vs.value), StageOf(current.gs.value), StageOf(current.fs.value);
        if separable then
          && pipelineLog == old(pipelineLog)
               + (if isAmd then [UseProgramStages(pipeline, ALL_SHADER_BITS, 0)] else [])
               + [UseProgramStages(pipeline, VERTEX_SHADER_BIT, vs.handle),
                  UseProgramStages(pipeline, GEOMETRY_SHADER_BIT, gs.handle),
                  UseProgramStages(pipeline, FRAGMENT_SHADER_BIT, fs.handle)]
          && draw == DrawBinding(0, pipeline)
          && programCache == old(programCache) && binaryCache == old(binaryCache)
          && nextHandle == old(nextHandle)
        else
          var key := backend.computeHash64(ProgramKeyBytes(vs.hash, gs.hash, fs.hash));
          && pipelineLog == old(pipelineLog)
          && key in programCache && draw == DrawBinding(programCache[key].handle, 0)
          && (key in old(programCache) ==>
                && programCache == old(programCache) && binaryCache == old(binaryCache)
                && nextHandle == old(nextHandle))
          && (key !in old(programCache) ==>
                var created := CreateOutcome(old(binaryCache), key, old(nextHandle), vs.handle, gs.handle, fs.handle, installOk, linked);
                && programCache == old(programCache)[key := created.0] && binaryCache == created.1
                && nextHandle == old(nextHandle) + 1)
    {
      var vs, gs, fs := StageOf(current.vs.value), StageOf(current.gs.value), StageOf(current.fs.value);
      if separable {
        if isAmd {
          pipelineLog := pipelineLog + [UseProgramStages(pipeline, ALL_SHADER_BITS, 0)];
        }
        pipelineLog := pipelineLog + [UseProgramStages(pipeline, VERTEX_SHADER_BIT, vs.handle)];
        pipelineLog := pipelineLog + [UseProgramStages(pipeline, GEOMETRY_SHADER_BIT, gs.handle)];
        pipelineLog := pipelineLog + [UseProgramStages(pipeline, FRAGMENT_SHADER_BIT, fs.handle)];
        draw := DrawBinding(0, pipeline);
      } else {
        var key := backend.computeHash64(ProgramKeyBytes(vs.hash, gs.hash, fs.hash));
        if key !in programCache {
          var program := CreateProgram(key, vs.handle, gs.handle, fs.handle, installOk, linked);
          programCache := programCache[key := program];
        }
        draw := DrawBinding(programCache[key].handle, 0);
      }
    }

    /** `SaveProgramCache`: writes the version, the entry count and every
        entry in the table's iteration `order`; the stream is checked after
        each entry and a failed write deletes the file. */
    method SaveProgramCache(file: CacheFile, openOk: bool, capacity: nat, order: seq<u64>)
      requires forall i :: 0 <= i < |order| ==> order[i] in binaryCache
      modifies file
      ensures file.State() == AfterSave(old(file.State()), binaryCache, order, openOk, capacity)
    {
      if !openOk {
        return;
      }
      var t := binaryCache;
      var w := Writer([], capacity, true);
      w := WriteBytes(w, ToLE(PROGRAM_CACHE_VERSION, 4));
      w := WriteBytes(w, ToLE(|t| % U32_LIMIT, 4));
      SaveHeaderWrites(t, capacity);
      var deleted := false;
      var i := 0;
      while i < |order|
        invariant 0 <= i <= |order|
        invariant w == WriterAfter(SaveHeader(t) + EncodeEntries(t, order[..i]), capacity)
        invariant i > 0 ==> w.good
        invariant !deleted
      {
        var hash := order[i];
        var e := t[hash];
        var length := |e.binary| % U32_LIMIT;
        ModBelow(|e.binary|);
        w := WriteBytes(w, ToLE(hash, 8));
        w := WriteBytes(w, ToLE(e.format, 4));
        w := WriteBytes(w, ToLE(length, 4));
        w := WriteBytes(w, e.binary[..length]);
        SaveEntryWrites(t, order, i, capacity);
        if !w.good {
          deleted := true;
          SaveTooLarge(t, order, i + 1, capacity);
          break;
        }
        i := i + 1;
      }
      if deleted {
        file.present, file.contents := false, [];
      } else {
        assert order[..|order|] == order;
        file.present, file.contents := true, w.written;
      }
    }

    /** `LoadProgramCache`: reads the version, then `count` entries while
        `count > 0`, emplacing each and deleting the file at the first short
        read. */
    method LoadProgramCache(file: CacheFile)
      modifies this`binaryCache, file
      ensures (file.State(), binaryCache) == AfterLoad(old(file.State()), old(binaryCache))
    {
      if !file.present {
        return;
      }
      var image, t := file.contents, binaryCache;
      var r := Reader(image, 0, true);
      var v := ReadInto(r, ToLE(0, 4));
      r := v.reader;
      var c := ReadInto(r, ToLE(0, 4));
      LoadImageReads(image, t, v, c);
      if DecodeU32(v.bytes) != PROGRAM_CACHE_VERSION {
        file.present, file.contents := false, [];
        return;
      }
      r := c.reader;
      var count: int := AsS32(DecodeU32(c.bytes));
      var hash: u64, format: u32, length: u32, binary: seq<byte> := 0, 0, 0, [];
      ghost var goal := LoadImage(image, t);
      var deleted := false;
      while count > 0
        invariant unchanged(file) && r.pos <= |r.data|
        invariant LoadEntries(r, count, Scratch(hash, format, length, binary), t) == goal
        invariant !deleted
      {
        ghost var r0, s0, t0 := r, Scratch(hash, format, length, binary), t;
        var a := ReadInto(r, ToLE(hash, 8));
        hash := DecodeU64(a.bytes);
        var b := ReadInto(a.reader, ToLE(format, 4));
        format := DecodeU32(b.bytes);
        var l := ReadInto(b.reader, ToLE(length, 4));
        length := DecodeU32(l.bytes);
        binary := Resize(binary, length);
        var d := ReadInto(l.reader, binary);
        binary := d.bytes;
        r := d.reader;
        ReadEntryReads(r0, s0, a, b, l, d);
        t := Emplace(t, hash, ProgramBinary(format, binary));
        count := count - 1;
        LoadEntriesPass(r0, count, s0, t0, r, Scratch(hash, format, length, binary), t);
        if !r.good {
          deleted := true;
          break;
        }
      }
      binaryCache := t;
      if deleted {
        file.present, file.contents := false, [];
      }
    }
  }
}
