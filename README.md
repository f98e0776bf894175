# OpenGL shader program manager

This is a model of `ShaderProgramManager::Impl`, the shader program manager of citra's OpenGL
renderer. In Dafny, the manager is the class `GlShaderManager.ShaderProgramManager`.

The manager turns the emulated PICA GPU's configuration into OpenGL shader stages:

- It caches vertex and fragment stages in two levels. The hash of a configuration leads through
  `shaders_ref` (`shadersRef`) to the hash of the generated code. That code hash is the key in
  `shaders`, so two configurations that generate the same code share a single stage.
- Geometry stages are cached in the same `shaders` table, keyed by the configuration hash itself.
- It owns two trivial stages, one vertex and one geometry.
- `ApplyTo` binds the selected stages for drawing. In separable mode it binds them to a program
  pipeline. In monolithic mode it uses one linked program per stage triple, looked up in
  `program_cache` (`programCache`) by the hash of the three stage hashes.
- Monolithic mode also keeps the driver binaries of linked programs in `binary_cache`
  (`binaryCache`). This table is persisted in a cache file. The file is read when the manager is
  constructed and written when it is destroyed, and only when separable mode is off and the
  shader cache is enabled.

The project has four files:

- `bytes.dfy` (module `Bytes`): the host's fixed-width integers and their little-endian byte
  images.
- `cache_format.dfy` (module `ProgramCacheFormat`):
  - the binary table and the file layout: a u32 version `0x2`, an s32 count, then for each entry
    a u64 hash, a u32 format, a u32 length and that many bytes;
  - output and input streams that can run short;
  - the cache file, as the class `CacheFile`;
  - the specification functions `AfterSave` and `AfterLoad`, and the lemmas that relate them.
- `shader_manager.dfy` (module `GlShaderManager`): the manager as a class whose methods update
  its tables in place. Save's `for` loop and Load's `while (count > 0)` loop are loops with
  invariants, proved against `AfterSave` and `AfterLoad`.
- `scenarios.dfy` (module `Scenarios`): call sequences a renderer makes, each with the outcome
  the manager guarantees for it.

The manager calls other code:

- the hash function `Common::ComputeHash64`;
- the four GLSL generators.

The model takes these as the function-valued fields of a `Backend` value. A configuration is
passed as the bytes of its struct, because those bytes are what gets hashed.

Some GL calls can succeed or fail. Their outcomes are parameters:

- `installOk`: whether the driver accepts a recorded binary;
- `linked`: the binary the driver reports after linking;
- `openOk`: whether the cache file can be opened for writing;
- `capacity`: how many bytes the disk takes.

Object names come from a counter (`nextHandle`). The only value the model gives a meaning to is
0, which means "not created".

Behaviour the model keeps as the code has it:

- **A saved empty table can leave a cut-short file.** Save checks the stream only after each
  entry. An empty table that does not fit therefore leaves a truncated header rather than
  deleting the file; see `AfterSave`.
- **A file cut inside its header is not a read failure.** Load checks the stream only inside
  its loop, never after the two header reads. A short read leaves the rest of the variable at
  its initial zero:
  - an empty file reads as version 0 and is deleted;
  - a version 0x2 cut short passes the check, the count reads as 0, and the file is kept with
    nothing loaded;
  - a count cut short that still reads as non-zero runs one pass on the exhausted stream. That
    pass emplaces an entry under whatever `hash` held, and then the file is deleted. `hash`,
    `format` and `length` are uninitialised in the code; the model starts them at 0, so in the
    model this entry has hash 0, format 0 and no bytes.

  See `LoadOfCutVersion`, `LoadOfCutCount` and the two single-entry examples.
- **Load keeps what it read before a failure.** When Load fails partway, it deletes the file but
  keeps every entry it has already emplaced. That includes the entry of the pass that failed,
  which may be partly read. A loader that discarded partial data would drop this entry; the
  code keeps it. `LoadOfTruncatedImage` shows that every entry wholly before the cut keeps its
  saved value. It also shows that the entry the cut falls in is loaded once its hash field is
  whole. For a cut inside that entry's binary, the entry keeps its own format, and its binary
  starts with the bytes that arrived. What follows depends on the pass before (next bullet).
  `SingleEntryCutInBinary` covers the first record: there the rest is zeros.
  `TwoEntryCutInBinary` covers the second record: there the rest is the first binary's bytes at
  the same positions, then zeros.
- **`hash`, `format`, `length` and `binary` carry over from one pass to the next.** The entry's
  constructor (line 362) copies `binary` from its rvalue-reference parameter, so the local still
  holds the bytes of the entry just emplaced. `binary.resize(length)` keeps the first
  min(previous length, length) of them and pads with zeros. A short read overwrites only the
  front.
- **Vertex and fragment keys share one table.** Vertex and fragment configuration hashes share
  `shaders_ref`. A fragment configuration whose hash equals that of a vertex configuration with
  empty code therefore finds the vertex's null entry. `EmptyVertexCodeFallsBack` rules this
  collision out in a requires.
- **Geometry and code hashes share one table.** Geometry configuration hashes share `shaders`
  with code hashes. `StageOk` therefore demands that the hash match the code only for the
  vertex and fragment stages.

## Model

| member | source | states |
|---|---|---|
| Bytes.AsS32 | src/video_core/renderer_opengl/gl_shader_manager.cpp:328-329 | the four count bytes Load reads, taken as a u32, become the s32 `count`: negative exactly when the top bit is set, and equal to the u32 modulo 2^32 |
| Bytes.Resize | src/video_core/renderer_opengl/gl_shader_manager.cpp:339 | `binary.resize(length)` keeps the first bytes and pads with zeros to exactly `length` bytes |
| ProgramCacheFormat.Emplace | src/video_core/renderer_opengl/gl_shader_manager.cpp:341 | emplace adds the key, never overwrites an entry already present, and stores the new entry only when the key was absent |
| ProgramCacheFormat.WriteBytes | src/video_core/renderer_opengl/gl_shader_manager.cpp:289-305 | a write never takes the file past the disk's capacity; the stream stays good exactly when it was good and the whole write fitted |
| ProgramCacheFormat.WriteBytesContents | src/video_core/renderer_opengl/gl_shader_manager.cpp:289-305 | a write keeps what the file held and appends the longest prefix of the bytes that fits: the old contents are a prefix of the new, the new are a prefix of old plus bytes, and the length is the smaller of their sum and the capacity |
| ProgramCacheFormat.WriteBytesAfter | src/video_core/renderer_opengl/gl_shader_manager.cpp:289-305 | writing piece by piece leaves the file holding the longest prefix of the whole stream that fits, and good iff all of it fits |
| ProgramCacheFormat.EncodeEntry | src/video_core/renderer_opengl/gl_shader_manager.cpp:299-305 | one entry's record is 16 bytes of hash, format and length, then as many bytes of the binary as the length field says, the binary's size modulo 2^32 |
| ProgramCacheFormat.SaveHeader | src/video_core/renderer_opengl/gl_shader_manager.cpp:289-292 | the header is 8 bytes: the version, then the table's size cast to s32 |
| ProgramCacheFormat.SaveImage | src/video_core/renderer_opengl/gl_shader_manager.cpp:289-305 | the image Save writes starts with the header and holds at least 16 bytes for each entry in the iteration order |
| ProgramCacheFormat.SaveHeaderWrites | src/video_core/renderer_opengl/gl_shader_manager.cpp:289-292 | the version write and the count write together offer the file the header of the image |
| ProgramCacheFormat.SaveEntryWrites | src/video_core/renderer_opengl/gl_shader_manager.cpp:299-305 | the loop's four writes for entry i take the writer from image prefix i to image prefix i + 1 |
| ProgramCacheFormat.SaveTooLarge | src/video_core/renderer_opengl/gl_shader_manager.cpp:306-309 | a prefix that overflows the disk means the whole image overflows it |
| ProgramCacheFormat.ReadBytes | src/video_core/renderer_opengl/gl_shader_manager.cpp:336-340 | a read delivers the next bytes of the file, up to the amount asked for; a short read stops at the end of the file and turns the stream bad for good |
| ProgramCacheFormat.ReadInto | src/video_core/renderer_opengl/gl_shader_manager.cpp:336-338 | reading into a variable delivers its width's worth of bytes from the position when they are there, and otherwise leaves the stream bad |
| ProgramCacheFormat.ReadEntry | src/video_core/renderer_opengl/gl_shader_manager.cpp:336-340 | one pass's four reads: the stream stays on the same file, never moves past its end, and is good afterwards only if it was good before |
| ProgramCacheFormat.LoadEntries | src/video_core/renderer_opengl/gl_shader_manager.cpp:335-348 | the `while (count > 0)` loop, each pass emplacing what it read and starting from the values the last one read; every key already in the table stays in it |
| ProgramCacheFormat.LoadImage | src/video_core/renderer_opengl/gl_shader_manager.cpp:320-348 | the version check, then the count read as s32 and the loop from zeroed variables; every key already in the table stays in it |
| ProgramCacheFormat.ReadEntryOfImage | src/video_core/renderer_opengl/gl_shader_manager.cpp:336-340 | an entry written in the save layout reads back as its hash, format and binary, whatever the loop variables held, and the reader ends just after it |
| ProgramCacheFormat.ReadEntryOfCut | src/video_core/renderer_opengl/gl_shader_manager.cpp:336-343 | a pass of the loop over an entry cut short leaves the stream bad |
| ProgramCacheFormat.AfterSave | src/video_core/renderer_opengl/gl_shader_manager.cpp:284-312 | a file that cannot be opened is left as it was; an image that fits is stored whole; a non-empty table that does not fit leaves no file; an empty table leaves whatever part of the header fits |
| ProgramCacheFormat.AfterLoad | src/video_core/renderer_opengl/gl_shader_manager.cpp:314-349 | with no file nothing changes; Load never writes the file, at most it deletes it; every entry already in the table is kept unchanged; a file whose version field is not 0x2 is deleted and adds nothing |
| ProgramCacheFormat.LoadEntriesKeeps | src/video_core/renderer_opengl/gl_shader_manager.cpp:335-348 | the loop never removes or changes an entry already in the table, whether it ends normally or on a failure |
| ProgramCacheFormat.LoadImageKeeps | src/video_core/renderer_opengl/gl_shader_manager.cpp:314-349 | Load never removes or changes an entry of the table it fills |
| ProgramCacheFormat.VersionMismatchDeletes | src/video_core/renderer_opengl/gl_shader_manager.cpp:320-326 | a file whose version field is not 0x2 is deleted and adds nothing to the table |
| ProgramCacheFormat.LoadHeaderOfImage | src/video_core/renderer_opengl/gl_shader_manager.cpp:320-329 | a file that starts with the header Save writes passes the version check, and the loop runs over the table's size |
| ProgramCacheFormat.LoadEntriesOfImage | src/video_core/renderer_opengl/gl_shader_manager.cpp:335-348 | the loop over entries written whole for distinct new keys inserts exactly those entries and keeps the file |
| ProgramCacheFormat.SaveLoadRoundTrip | src/video_core/renderer_opengl/gl_shader_manager.cpp:284-349 | when the table has fewer than 2^31 entries and every binary is shorter than 2^32 bytes, loading the image Save writes reproduces the saved table exactly and keeps the file |
| ProgramCacheFormat.LoadOfTruncatedImage | src/video_core/renderer_opengl/gl_shader_manager.cpp:335-348 | a saved image cut short after its header is deleted by Load; every entry that lies wholly before the cut is loaded with its saved value; every entry whose hash field lies wholly before the cut, the partly read one included, is in the table |
| ProgramCacheFormat.LoadEntriesOfCutKeys | src/video_core/renderer_opengl/gl_shader_manager.cpp:335-348 | the loop over distinct new keys cut short leaves in the table every key whose hash field arrived, including the key of the failing pass |
| ProgramCacheFormat.ReadEntryOfBinaryCut | src/video_core/renderer_opengl/gl_shader_manager.cpp:336-340 | a pass whose hash, format and length are whole but whose binary is cut reads those three fields, puts the bytes that arrived over the front of the resized binary, and leaves the stream bad at the end of the file |
| ProgramCacheFormat.LoadOfOneCutRecord | src/video_core/renderer_opengl/gl_shader_manager.cpp:320-347 | a one-entry header followed by a record cut inside its binary yields a table of just that record, with the partial binary, and deletes the file |
| ProgramCacheFormat.SingleEntryCutInBinary | src/video_core/renderer_opengl/gl_shader_manager.cpp:320-347 | a single-entry image cut k bytes into its binary is deleted after the first pass loads the entry under its own hash and format, with its first k bytes followed by zeros, the zeros `resize` adds to the still empty `binary` |
| ProgramCacheFormat.LoadLastCutRecord | src/video_core/renderer_opengl/gl_shader_manager.cpp:335-347 | a last pass over a record cut inside its binary emplaces the record's hash and format, with the bytes that arrived over the front of the previous `binary` resized to the record's length, and deletes the file |
| ProgramCacheFormat.LoadAfterFirstRecord | src/video_core/renderer_opengl/gl_shader_manager.cpp:320-341 | a two-entry header followed by a whole record: Load emplaces that record and starts the next pass with the record's hash, format, length and binary still in the loop variables |
| ProgramCacheFormat.LoadOfSecondCutRecord | src/video_core/renderer_opengl/gl_shader_manager.cpp:320-362 | a two-entry header, a whole record and a record cut inside its binary: the first record is loaded as saved, the second with the bytes that arrived over the first record's binary resized to the second's length, and the file is deleted |
| ProgramCacheFormat.TwoEntryCutInBinary | src/video_core/renderer_opengl/gl_shader_manager.cpp:320-362 | a two-entry image cut k bytes into the second binary is deleted; the first entry loads as saved; the second has its own hash, format and length, and byte i of its binary is the saved byte for i < k, else the first binary's byte i while i is within it, else 0 |
| ProgramCacheFormat.ReadEntryAtEnd | src/video_core/renderer_opengl/gl_shader_manager.cpp:336-340 | a pass of the loop that finds the file exhausted reads nothing, leaves the variables at the model's initial zeros and turns the stream bad |
| ProgramCacheFormat.LoadOfCutVersion | src/video_core/renderer_opengl/gl_shader_manager.cpp:320-335 | a file shorter than four bytes: when the bytes present read as a number other than 0x2 the file is deleted; when they read as 0x2 the file is kept and nothing is loaded |
| ProgramCacheFormat.LoadOfCutCount | src/video_core/renderer_opengl/gl_shader_manager.cpp:328-347 | a file with a whole version 0x2 and a cut-short count: a count that reads as 0 keeps the file and loads nothing; any other count runs one pass on the exhausted stream, which emplaces the uninitialised variables (hash 0, format 0 and no bytes in the model, which starts them at 0), then deletes the file |
| ProgramCacheFormat.SingleEntryCutInVersion | src/video_core/renderer_opengl/gl_shader_manager.cpp:320-335 | a single-entry image cut to 3 bytes is kept and loads nothing |
| ProgramCacheFormat.SingleEntryCutInCount | src/video_core/renderer_opengl/gl_shader_manager.cpp:328-347 | a single-entry image cut to 5 bytes loads a bogus entry and is deleted; with the model's zero-initialised variables that entry is hash 0, format 0 and no bytes |
| ProgramCacheFormat.SaveThenLoad | src/video_core/renderer_opengl/gl_shader_manager.cpp:284-349 | on a disk with room, and for a table of fewer than 2^31 entries whose binaries are each shorter than 2^32 bytes, Save followed by Load leaves the image on disk and restores the whole table |
| ProgramCacheFormat.SaveOverflowThenLoad | src/video_core/renderer_opengl/gl_shader_manager.cpp:306-318 | a non-empty table that does not fit leaves no file, so the next Load finds nothing and adds nothing |
| ProgramCacheFormat.SingleEntryRoundTrip | src/video_core/renderer_opengl/gl_shader_manager.cpp:289-341 | the image of a single-entry table is 24 bytes plus the binary, and Load reads the entry back |
| GlShaderManager.KindFor | src/video_core/renderer_opengl/gl_shader_manager.cpp:93-99 | a stage is a program object exactly in separable mode |
| GlShaderManager.RefTo | src/video_core/renderer_opengl/gl_shader_manager.cpp:174 | a `shaders_ref` entry selects null exactly when it is null, and otherwise the stage under its code hash |
| GlShaderManager.ProgramKeyBytes | src/video_core/renderer_opengl/gl_shader_manager.cpp:238-243 | the program key hashes 24 bytes, the three stage hashes in order |
| GlShaderManager.ProgramKeyBytesInjective | src/video_core/renderer_opengl/gl_shader_manager.cpp:238-243 | the key bytes determine the three stage hashes, so distinct stage triples share a program only through a collision of ComputeHash64 |
| GlShaderManager.EmplaceStage | src/video_core/renderer_opengl/gl_shader_manager.cpp:165-169 | `shaders.emplace` followed by `Create` on a new entry: existing stages are kept, and a new one is created under the hash with that hash stored in it |
| GlShaderManager.CreateOutcome | src/video_core/renderer_opengl/gl_shader_manager.cpp:255-273 | an accepted recorded binary is installed and the cache is unchanged; a rejected one clears the whole cache before the stages are linked; after a link, a non-empty binary is recorded |
| GlShaderManager.ShaderProgramManager.constructor | src/video_core/renderer_opengl/gl_shader_manager.cpp:137-146 | a pipeline exists exactly in separable mode; the cache file is loaded only when separable mode is off and the shader cache is on; the trivial vertex stage is created with hash 0 from the trivial generator; the tables start empty |
| GlShaderManager.ShaderProgramManager.Destroy | src/video_core/renderer_opengl/gl_shader_manager.cpp:148-152 | the file becomes what Save leaves when separable mode is off and the shader cache is on, and is left untouched otherwise |
| GlShaderManager.ShaderProgramManager.CacheStage | src/video_core/renderer_opengl/gl_shader_manager.cpp:165-169 | the stage for a hash is created only when the hash is new, and one object name is used only then |
| GlShaderManager.ShaderProgramManager.UseProgrammableVertexShader | src/video_core/renderer_opengl/gl_shader_manager.cpp:154-177 | a known configuration reuses its entry, or its null, with no generation or compile. A new one generates code once. Empty code records null, selects null and leaves `shaders` alone. Other code shares or creates the stage under its code hash. The result is true iff a stage is selected. |
| GlShaderManager.ShaderProgramManager.UseFixedGeometryShader | src/video_core/renderer_opengl/gl_shader_manager.cpp:179-189 | the geometry stage is the `shaders` entry under the configuration hash itself. It is generated and created only when that entry is new, and it is always selected. `shaders_ref` is outside its frame. |
| GlShaderManager.ShaderProgramManager.UseFragmentShader | src/video_core/renderer_opengl/gl_shader_manager.cpp:191-208 | a known configuration reuses its entry with no generation; a new one generates code once, shares or creates the stage under its code hash, records it and selects it |
| GlShaderManager.ShaderProgramManager.UseTrivialVertexShader | src/video_core/renderer_opengl/gl_shader_manager.cpp:210-212 | only the vertex slot is repointed, at the trivial vertex stage, whose hash is 0 |
| GlShaderManager.ShaderProgramManager.UseTrivialGeometryShader | src/video_core/renderer_opengl/gl_shader_manager.cpp:214-216 | only the geometry slot is repointed, at the trivial geometry stage, which has hash 0 and was never created |
| GlShaderManager.ShaderProgramManager.CreateProgram | src/video_core/renderer_opengl/gl_shader_manager.cpp:255-273 | the new program and the new binary cache are the outcome `CreateOutcome` states, and exactly one program object is made |
| GlShaderManager.ShaderProgramManager.ApplyTo | src/video_core/renderer_opengl/gl_shader_manager.cpp:218-253 | separable: an all-stage reset to 0 on AMD, then the vertex, geometry and fragment binds; the pipeline is published; neither cache changes. Monolithic: the program key is the hash of the three stage hashes; a known key publishes its program unchanged; a new key creates the program once and publishes it |
| GlShaderManager.ShaderProgramManager.SaveProgramCache | src/video_core/renderer_opengl/gl_shader_manager.cpp:284-312 | the file becomes `AfterSave` of the table in the given iteration order |
| GlShaderManager.ShaderProgramManager.LoadProgramCache | src/video_core/renderer_opengl/gl_shader_manager.cpp:314-349 | the file and the binary cache become `AfterLoad` of their old values. `AfterLoad` runs `LoadEntries`, in which the loop's `hash`, `format`, `length` and `binary` carry over from one pass to the next, as in the method's loop; `binary` still holds the bytes the entry's constructor copied |
| Scenarios.SelectTrivialStages | src/video_core/renderer_opengl/gl_shader_manager.cpp:191-216 | selecting both trivial stages and a new fragment configuration yields exactly that selection; neither the program cache nor the binary cache changes, and no bind is made |
| Scenarios.RepeatedVertexConfig | src/video_core/renderer_opengl/gl_shader_manager.cpp:154-177 | selecting one vertex configuration twice gives the same answer both times. The answer is true iff the code is non-empty. The code is generated once, and a stage exists only for non-empty code. |
| Scenarios.SharedVertexCode | src/video_core/renderer_opengl/gl_shader_manager.cpp:164-171 | two configurations with the same code are each generated, but they share one stage compiled once |
| Scenarios.SelectFallbackStages | src/video_core/renderer_opengl/gl_shader_manager.cpp:154-216 | a vertex configuration with empty code selects no stage; the caller's fallback then selects the trivial vertex stage made by the trivial generator, the trivial geometry stage, and the stage made from the fragment configuration's code |
| Scenarios.EmptyVertexCodeFallsBack | src/video_core/renderer_opengl/gl_shader_manager.cpp:223-236 | in separable mode after that fallback, the binds are, in order: the AMD reset (on AMD only), the trivial vertex stage's object, name 0 for the geometry stage, and the object of the stage made from the fragment configuration's code. The pipeline is published. |
| Scenarios.SameStagesLinkedOnce | src/video_core/renderer_opengl/gl_shader_manager.cpp:237-252 | applying the same stages twice in monolithic mode links one program, and both draws use it |
| Scenarios.LinkFirstProgram | src/video_core/renderer_opengl/gl_shader_manager.cpp:264-271 | the first link of a stage triple records the driver's binary under the program key |
| Scenarios.FirstSession | src/video_core/renderer_opengl/gl_shader_manager.cpp:148-152 | at shutdown, with room on disk, the file holds exactly the image of the single recorded binary |
| Scenarios.SecondSession | src/video_core/renderer_opengl/gl_shader_manager.cpp:137-146 | a manager started on that file restores the binary. It installs the binary for the same stages when the driver accepts it. Otherwise it drops the cache and records the new link. |
| Scenarios.BinariesSurviveRestart | src/video_core/renderer_opengl/gl_shader_manager.cpp:137-152 | the binary linked in one session is restored and used in the next |

## Left out

- The GL binding helpers (uniform-block, sampler and image bindings, lines 13-70), and the calls
  to them at lines 110-113 and 247-248. They are foreign GL calls.
- `PicaUniformsData::SetFromRegs` (lines 72-85). It is a floating-point conversion outside the
  cache policy.
- `GetCacheFile` (lines 277-282). The path and the program id come from the file system and the
  loader. The model has a single `CacheFile` object.
- The internals of `ComputeHash64`, of the configuration structs and of the GLSL generators.
  They are parameters of `Backend`.
- Compile and link errors. A created stage or program always gets a fresh non-zero object
  name.
- The forwarding wrapper `ShaderProgramManager` (lines 377 onwards). It only calls into `Impl`.
- File input and output beyond running out of room:
  - a cache file that cannot be opened for reading is treated as an absent file;
  - a write fails only once the disk's `capacity` is used up;
  - the file is closed when the stream is destroyed, and deletion removes the file.
- `unordered_map` iteration order. Save takes `order`, a parameter, as the order it writes the
  table in.
- Integers are stored little-endian, as on the x86 and ARM hosts the emulator runs on.
- In Load, `hash`, `format` and `length` are uninitialised before the first read. The model
  starts them at 0. Their values matter only when a read comes up short.
- `current_shaders` is uninitialised in the constructor. The model starts every slot as null.
- GlShaderManager.ShaderProgramManager.ApplyTo: requires all three slots to be non-null. The
  source dereferences them without a check, which is undefined behaviour when a slot is null.
- GlShaderManager.ShaderProgramManager.Destroy: requires `order` to list each table key exactly
  once, as iteration over an `unordered_map` does. `SaveProgramCache` needs only that the keys
  it lists are in the table.
- Settings::values.use_shader_cache: the constructor and `Destroy` each take it as their own
  parameter. The source reads the setting at each of the two points.
- Scenarios.SelectFallbackStages: has the same requires as `EmptyVertexCodeFallsBack`, for the
  same reason.
- Scenarios.EmptyVertexCodeFallsBack: requires the fragment configuration's hash to differ from
  the vertex configuration's. When they are equal, the shared `shaders_ref` hands the fragment
  slot the vertex's null entry. `ApplyTo` then dereferences null.
