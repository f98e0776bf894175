/** Call sequences a renderer makes on the shader program manager, each with
    the outcome the manager guarantees for it whatever the generators and
    the hash function compute (beyond what each `requires` fixes). */
module Scenarios {
  import opened Bytes
  import opened ProgramCacheFormat
  import opened GlShaderManager

  /** The hash a fragment configuration's code is cached under. */
  function FragmentCodeHash(backend: Backend, fsKey: ConfigKey, separable: bool): u64 {
    backend.computeHash64(backend.generateFragmentShader(fsKey, separable))
  }

  /** Selects the trivial vertex and geometry stages and the fragment stage
      of a configuration not seen before. */
  method SelectTrivialStages(m: ShaderProgramManager, fsKey: ConfigKey)
    requires m.Valid() && m.backend.computeHash64(fsKey) !in m.shadersRef
    modifies m
    ensures m.Valid()
    ensures m.current == CurrentShaders(Some(TrivialVertex), Some(TrivialGeometry),
                                        Some(Cached(FragmentCodeHash(m.backend, fsKey, m.separable))))
    ensures m.binaryCache == old(m.binaryCache) && m.programCache == old(m.programCache)
    ensures m.pipelineLog == old(m.pipelineLog)
  {
    m.UseTrivialVertexShader();
    m.UseTrivialGeometryShader();
    m.UseFragmentShader(fsKey);
  }

  /** The same vertex configuration selected twice: the code is generated
      once, both calls agree, and a stage exists only for non-empty code. */
  method RepeatedVertexConfig(backend: Backend, separable: bool, key: ConfigKey, setup: ShaderSetup)
      returns (first: bool, second: bool, generations: nat, stages: nat)
    ensures first == second
    ensures first <==> backend.generateVertexShader(setup, key, separable) != []
    ensures generations == 2
    ensures stages == if first then 1 else 0
  {
    var file := new CacheFile(false, []);
    var m := new ShaderProgramManager(separable, false, backend, false, file);
    first := m.UseProgrammableVertexShader(key, setup);
    second := m.UseProgrammableVertexShader(key, setup);
    generations := m.generated;
    stages := |m.shaders.Keys|;
  }

  /** Two vertex configurations whose generated code is the same: both are
      generated, but one stage is compiled and both select it. */
  method SharedVertexCode(backend: Backend, separable: bool, key1: ConfigKey, key2: ConfigKey, setup: ShaderSetup)
      returns (same: bool, stages: nat, generations: nat, compiles: nat)
    requires backend.computeHash64(key1) != backend.computeHash64(key2)
    requires backend.generateVertexShader(setup, key1, separable) == backend.generateVertexShader(setup, key2, separable)
    requires backend.generateVertexShader(setup, key1, separable) != []
    ensures same && stages == 1 && generations == 3 && compiles == 1
  {
    var file := new CacheFile(false, []);
    var m := new ShaderProgramManager(separable, false, backend, false, file);
    var start := m.nextHandle;
    var _ := m.UseProgrammableVertexShader(key1, setup);
    var firstStage := m.current.vs;
    var _ := m.UseProgrammableVertexShader(key2, setup);
    same := m.current.vs == firstStage;
    stages := |m.shaders.Keys|;
    generations := m.generated;
    compiles := m.nextHandle - start;
  }

  /** A fresh separable manager asked for a vertex configuration that
      generates no code: the caller falls back to the trivial vertex shader,
      then selects the trivial geometry shader and a fragment configuration. */
  method SelectFallbackStages(backend: Backend, isAmd: bool, key: ConfigKey, setup: ShaderSetup, fsKey: ConfigKey)
      returns (m: ShaderProgramManager, programmable: bool)
    requires backend.generateVertexShader(setup, key, true) == []
    requires backend.computeHash64(fsKey) != backend.computeHash64(key)
    ensures fresh(m) && m.Valid() && m.separable && m.isAmd == isAmd && m.backend == backend
    ensures !programmable
    ensures m.current == CurrentShaders(Some(TrivialVertex), Some(TrivialGeometry),
                                        Some(Cached(FragmentCodeHash(backend, fsKey, true))))
    ensures m.trivialVertexShader.source == Some(StageSource(backend.generateTrivialVertexShader(true), VertexShader))
    ensures m.shaders[FragmentCodeHash(backend, fsKey, true)].source ==
      Some(StageSource(backend.generateFragmentShader(fsKey, true), FragmentShader))
    ensures m.pipelineLog == []
  {
    var file := new CacheFile(false, []);
    m := new ShaderProgramManager(true, isAmd, backend, false, file);
    programmable := m.UseProgrammableVertexShader(key, setup);
    if !programmable {
      m.UseTrivialVertexShader();
    }
    m.UseTrivialGeometryShader();
    m.UseFragmentShader(fsKey);
  }

  /** Separable mode with a vertex configuration that generates no code: the
      pipeline binds the trivial vertex shader, unbinds the geometry stage
      (the trivial geometry shader is never created) and binds the fragment
      stage made from the fragment configuration's code; AMD gets a reset
      first. */
  method EmptyVertexCodeFallsBack(backend: Backend, isAmd: bool, key: ConfigKey, setup: ShaderSetup, fsKey: ConfigKey)
      returns (m: ShaderProgramManager, programmable: bool, draw: DrawBinding, binds: seq<PipelineCall>)
    requires backend.generateVertexShader(setup, key, true) == []
    requires backend.computeHash64(fsKey) != backend.computeHash64(key)
    ensures !programmable
    ensures draw.shaderProgram == 0 && draw.programPipeline != 0
    ensures m.trivialVertexShader.source == Some(StageSource(backend.generateTrivialVertexShader(true), VertexShader))
    ensures var fsHash := FragmentCodeHash(backend, fsKey, true);
      && fsHash in m.shaders
      && m.shaders[fsHash].source == Some(StageSource(backend.generateFragmentShader(fsKey, true), FragmentShader))
    ensures |binds| == if isAmd then 4 else 3
    ensures isAmd ==> binds[0] == UseProgramStages(draw.programPipeline, ALL_SHADER_BITS, 0)
    ensures var n := |binds|;
      && binds[n - 3] == UseProgramStages(draw.programPipeline, VERTEX_SHADER_BIT, m.trivialVertexShader.handle)
      && binds[n - 2] == UseProgramStages(draw.programPipeline, GEOMETRY_SHADER_BIT, 0)
      && binds[n - 1] == UseProgramStages(draw.programPipeline, FRAGMENT_SHADER_BIT,
                                          m.shaders[FragmentCodeHash(backend, fsKey, true)].handle)
  {
    m, programmable := SelectFallbackStages(backend, isAmd, key, setup, fsKey);
    draw := m.ApplyTo(false, ProgramBinary(0, []));
    binds := m.pipelineLog;
  }

  /** Monolithic mode applying the same stages twice: one program is linked
      and both draws use it. */
  method SameStagesLinkedOnce(backend: Backend, fsKey: ConfigKey, linked: ProgramBinary)
      returns (first: DrawBinding, second: DrawBinding, programs: nat)
    ensures first == second && first.shaderProgram != 0 && first.programPipeline == 0
    ensures programs == 1
  {
    var file := new CacheFile(false, []);
    var m := new ShaderProgramManager(false, false, backend, false, file);
    SelectTrivialStages(m, fsKey);
    first := m.ApplyTo(false, linked);
    second := m.ApplyTo(false, linked);
    programs := |m.programCache.Keys|;
  }

  /** Monolithic mode with the shader cache on and no cache file: the stages
      applied are linked and the binary the driver reports is recorded. */
  method LinkFirstProgram(backend: Backend, fsKey: ConfigKey, linked: ProgramBinary, file: CacheFile)
      returns (m: ShaderProgramManager, key: u64)
    requires linked.binary != [] && !file.present
    modifies file
    ensures m.Valid() && !m.separable
    ensures key == backend.computeHash64(ProgramKeyBytes(0, 0, FragmentCodeHash(backend, fsKey, false)))
    ensures m.binaryCache == map[key := linked]
    ensures file.State() == old(file.State())
  {
    m := new ShaderProgramManager(false, false, backend, true, file);
    SelectTrivialStages(m, fsKey);
    var _ := m.ApplyTo(false, linked);
    key := backend.computeHash64(ProgramKeyBytes(0, 0, FragmentCodeHash(backend, fsKey, false)));
  }

  /** A first session that links one program and saves its binary at
      shutdown, with room on disk. */
  method FirstSession(backend: Backend, fsKey: ConfigKey, linked: ProgramBinary, capacity: nat)
      returns (key: u64, file: CacheFile)
    requires linked.binary != [] && |linked.binary| < U32_LIMIT
    requires capacity >= 24 + |linked.binary|
    ensures key == backend.computeHash64(ProgramKeyBytes(0, 0, FragmentCodeHash(backend, fsKey, false)))
    ensures fresh(file) && file.State() == FileState(true, SaveImage(map[key := linked], [key]))
  {
    file := new CacheFile(false, []);
    var m;
    m, key := LinkFirstProgram(backend, fsKey, linked, file);
    SingleEntryRoundTrip(key, linked);
    m.Destroy(true, file, true, capacity, [key]);
  }

  /** A session started on the file a first session saved: the binary is
      restored, then installed for the same stages, or, when the driver
      rejects it, the cache is dropped and the fresh link recorded. */
  method SecondSession(backend: Backend, fsKey: ConfigKey, key: u64, linked: ProgramBinary, file: CacheFile,
                       installOk: bool, relinked: ProgramBinary)
      returns (restored: BinaryTable, origin: ProgramOrigin, after: BinaryTable)
    requires |linked.binary| < U32_LIMIT
    requires key == backend.computeHash64(ProgramKeyBytes(0, 0, FragmentCodeHash(backend, fsKey, false)))
    requires file.State() == FileState(true, SaveImage(map[key := linked], [key]))
    modifies file
    ensures restored == map[key := linked]
    ensures installOk ==> origin == InstalledBinary(linked) && after == restored
    ensures !installOk ==>
      origin.LinkedStages? && after == if relinked.binary == [] then map[] else map[key := relinked]
  {
    SingleEntryRoundTrip(key, linked);
    var m := new ShaderProgramManager(false, false, backend, true, file);
    restored := m.binaryCache;
    SelectTrivialStages(m, fsKey);
    var _ := m.ApplyTo(installOk, relinked);
    origin := m.programCache[key].origin;
    after := m.binaryCache;
  }

  /** Two sessions with the shader cache on and room on disk: the binary the
      first one linked survives the restart. */
  method BinariesSurviveRestart(backend: Backend, fsKey: ConfigKey, linked: ProgramBinary, capacity: nat,
                                installOk: bool, relinked: ProgramBinary)
      returns (key: u64, restored: BinaryTable, origin: ProgramOrigin, after: BinaryTable)
    requires linked.binary != [] && |linked.binary| < U32_LIMIT
    requires capacity >= 24 + |linked.binary|
    ensures key == backend.computeHash64(ProgramKeyBytes(0, 0, FragmentCodeHash(backend, fsKey, false)))
    ensures restored == map[key := linked]
    ensures installOk ==> origin == InstalledBinary(linked) && after == restored
    ensures !installOk ==>
      origin.LinkedStages? && after == if relinked.binary == [] then map[] else map[key := relinked]
  {
    var file;
    key, file := FirstSession(backend, fsKey, linked, capacity);
    restored, origin, after := SecondSession(backend, fsKey, key, linked, file, installOk, relinked);
  }
}
