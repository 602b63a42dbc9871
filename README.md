# celsus: constant-buffer binding and section files, in Dafny

This project models two pieces of the celsus Direct3D 11 demo framework and
proves properties of each.

**Per-stage constant-buffer binding (`EffectWrapper::Shader<T>`).** Module
`Effect` holds three classes:

- `ConstantBuffer` has a `mapped` flag, the memory handed out by the last
  map, and a ghost history of the map and unmap calls made on it.
- `Shader` has the stage's four tables: buffers by name, variables by name,
  bound textures and bound samplers.
- `EffectWrapper` holds a vertex stage and a pixel stage.

Each buffer also records, as ghost state, the stage that created it. A valid
stage owns every buffer in its table, and different buffers of a stage have
different memory. So the two stages of an `EffectWrapper` never share a buffer.

The stage's operations are modelled as follows:

- `DoReflection` builds the tables from what the reflection provider reports.
  That report is a `Reflection.ShaderDesc`: a sequence of buffer records and
  bound-resource records.
- `SetVariable` checks the name and the size, maps the owning buffer lazily
  and copies the value's bytes to the variable's offset.
- `UnmapBuffers` unmaps every mapped buffer.

Module `Reflection` states, over names only:

- what reflection stores: buffer sizes, variable locations, texture and
  sampler bindings;
- that a buffer name already in the stage's table reuses that buffer;
- that the first declaration of a variable or resource wins.

Module `MapDiscipline` proves that the call history of every buffer alternates
map, unmap, map, and so on. Between two unmaps a buffer is therefore mapped at
most once, however many writes it receives. Module `MapInsert` models the
first-insert-wins `insert` of `std::map` and `stdext::hash_map`, which both
parts use.

**Section-file reader (`SectionReader`).** Module `Sections` holds the class
`SectionReader`:

- `Load` runs the grouping loop over the lines of a file and optionally
  selects a section.
- `LoadSection` selects a section.
- `InitCurSection` reads the row under the cursor and moves past it.
- The `read_*` methods check the element count and copy values out through
  an array.

Module `SectionFile` gives the grouping loop as a function (`Parse`). It
proves that `Parse` stores exactly the blocks of a reference description
(`Blocks`) that have rows, first-wins. It also proves the format's rules:

- rows before any header go to section `""`;
- empty lines do nothing;
- a section without rows is never stored;
- a repeated name keeps its first rows.

## Model

| member | source | states |
|---|---|---|
| MapInsert.InsertFirst | celsus/section_reader.cpp:55 | One `insert`: the key is added; a key already present keeps its value; the others are untouched. |
| MapInsert.InsertAllKeys | celsus/effect_wrapper.hpp:139-142 | After a run of inserts, a key is present exactly when it was before or some inserted pair carries it. |
| MapInsert.InsertAllKeepsExisting | celsus/section_reader.cpp:67 | A key already present keeps its value, whatever is inserted after it. |
| MapInsert.InsertAllFirstWins | celsus/effect_wrapper.hpp:123-126 | A key that was absent ends up with the value of the first pair carrying it; later pairs are dropped. |
| MapInsert.InsertAllOrigin | celsus/section_reader.cpp:54-57 | Every value after the inserts was there before or comes from an inserted pair with its key. |
| MapInsert.InsertAllAgreeing | celsus/effect_wrapper.hpp:110-118 | When all pairs for a key agree on one value, the key ends up with that value. |
| MapDiscipline.AlternatesExtend | celsus/effect_wrapper.hpp:166-170 | Alternation holds after a map exactly when the buffer was unmapped, and after an unmap exactly when it was mapped. |
| MapDiscipline.AtMostOneMapPerEpoch | celsus/effect_wrapper.hpp:166-170 | In an alternating history, a stretch with no unmap holds at most one map, and it is a map from the unmapped state. |
| Effect.ConstantBuffer.constructor | celsus/effect_wrapper.hpp:44-48 | A new buffer is unmapped, has no memory and has seen no device call. |
| Effect.ConstantBuffer.EnsureMapped | celsus/effect_wrapper.hpp:166-170 | An unmapped buffer becomes mapped with fresh memory and exactly one map call. A mapped buffer keeps its memory and gets no call. The history still alternates. |
| Effect.ConstantBuffer.Release | celsus/effect_wrapper.hpp:182-186 | A mapped buffer becomes unmapped with exactly one unmap call. An unmapped buffer is left untouched. The memory reference is kept. |
| Effect.ConstantBuffer.Write | celsus/effect_wrapper.hpp:172-173 | The bytes at `[offset, offset + size)` equal the value; every other byte is unchanged. |
| Effect.MapDiscard | celsus/effect_wrapper.hpp:169 | `Map` with `WRITE_DISCARD` records one map call and hands out fresh memory of the buffer's size. |
| Effect.Unmap | celsus/effect_wrapper.hpp:185 | `Unmap` records one unmap call. |
| Effect.CreateBuffer | celsus/effect_wrapper.hpp:114-117 | May fail. On success the result is a new buffer of the requesting stage, with the record's name and size, unmapped, without memory and without device calls. |
| Effect.ExtendsDistinct | celsus/effect_wrapper.hpp:102-131 | A table that adds only buffers without memory to one whose buffers have distinct memory also has distinct memory. |
| Effect.SameMemoryDistinct | celsus/effect_wrapper.hpp:178-188 | Buffers whose memory references did not change still have distinct memory. |
| Effect.RegisterKeepsInvariants | celsus/effect_wrapper.hpp:129-130 | Registering a new unmapped buffer under its own name keeps both tables valid. The variables that already point at it become resolvable, and its size is added. |
| Effect.Shader.DoReflection | celsus/effect_wrapper.hpp:89-148 | Failed reflection (`None`) returns false and changes nothing. Otherwise buffer sizes and variable locations are the first-wins insertion of the records handled. Failure stops at a record whose buffer did not exist. Textures and samplers get the first-wins insertion of their own kind, only on success. Existing entries are kept. Every buffer the table gains is unmapped, without memory and without device calls. The stage stays valid: it owns all its buffers, and they have distinct memory. |
| Effect.Shader.ReflectBuffers | celsus/effect_wrapper.hpp:102-131 | The buffer loop: after `processed` records, sizes and locations are the first-wins insertion of those records. It stops early only at a buffer that creation failed for. |
| Effect.Shader.ReflectNext | celsus/effect_wrapper.hpp:102-131 | One turn of the buffer loop: sizes and locations grow by record `i` first-wins, or the record names a buffer the stage lacks and nothing changes. |
| Effect.Shader.ReflectBuffer | celsus/effect_wrapper.hpp:107-130 | One record. A known name always succeeds and leaves the buffer table as it was, so the registered buffer is reused. An unknown name either fails with nothing changed, or succeeds and adds exactly that name to the buffer table, with a new buffer object, keeping every other entry. |
| Effect.Shader.RegisterBuffer | celsus/effect_wrapper.hpp:129-130 | The new buffer is added under its own name and everything else is kept. |
| Effect.Shader.InsertVariables | celsus/effect_wrapper.hpp:120-128 | The variable table gains the first-wins insertion of this record's variables, each located in the current buffer at its own offset and size. |
| Effect.Shader.InsertVariable | celsus/effect_wrapper.hpp:121-127 | A variable is stored, pointing at the current buffer, only when its name is not already known. |
| Effect.Shader.BindResources | celsus/effect_wrapper.hpp:134-146 | Textures go only to the texture table and samplers only to the sampler table, first-wins. Other kinds go nowhere. |
| Effect.Shader.SetVariable | celsus/effect_wrapper.hpp:150-176 | The call succeeds exactly when the name is known and the declared size equals the value's size. On failure, no flag, call or byte changes. On success, the buffer is mapped and the value's bytes are at `StartOffset`. A map call happens only if the buffer was unmapped. An already-mapped buffer keeps every other byte. The tables are unchanged, the memory of every other buffer of the stage is unchanged, and the buffers still have distinct memory. |
| Effect.Shader.UnmapBuffers | celsus/effect_wrapper.hpp:178-188 | Afterwards no buffer is mapped. Exactly the buffers that were mapped get one unmap call each. When no buffer was mapped, nothing changes, so a second call in a row does nothing. |
| Effect.EffectWrapper.StagesApart | celsus/effect_wrapper.hpp:200-201 | The vertex and pixel stages have no buffer in common. |
| Effect.EffectWrapper.SetVsVariable | celsus/effect_wrapper.hpp:24 | The write goes to the vertex stage. The pixel stage and its buffers are unchanged. |
| Effect.EffectWrapper.SetPsVariable | celsus/effect_wrapper.hpp:27 | The write goes to the pixel stage. The vertex stage and its buffers are unchanged. |
| Reflection.KnownBufferSize | celsus/effect_wrapper.hpp:110-112 | With consistent reflection data, a reused buffer has the size the current record declares. |
| Reflection.ReflectionStep | celsus/effect_wrapper.hpp:102-131 | Handling record `i` adds its size first-wins and its variables first-wins to what the earlier records stored. |
| Reflection.VariableNames | celsus/effect_wrapper.hpp:120-127 | After reflection a variable name is known exactly when it was known before or some buffer record declares it. |
| Reflection.FirstDeclarationWins | celsus/effect_wrapper.hpp:123-126 | A new name takes the location of its first declaration, in the buffer current at that point. Later declarations, in the same buffer or another, are ignored. |
| Reflection.BindStep | celsus/effect_wrapper.hpp:134-146 | Binding resource `r` adds it first-wins to its kind's table and leaves the table alone for any other kind. |
| Reflection.BindingsOfKind | celsus/effect_wrapper.hpp:137-145 | A name enters a kind's table exactly when some resource of that kind carries it, and it maps to the first such resource. |
| SectionFile.Parse | celsus/section_reader.cpp:43-67 | Sections already present keep their rows; every section it adds has rows. |
| SectionFile.ScanKeeps | celsus/section_reader.cpp:49-64 | After any prefix of the file, the loop has kept the sections it started with, and every section it added has rows. |
| SectionFile.ScanMatchesBlocks | celsus/section_reader.cpp:49-64 | After any prefix of the file, the loop holds the stored blocks before the latest header, plus the latest header's name and rows. |
| SectionFile.ParseMatchesBlocks | celsus/section_reader.cpp:43-67 | Loading stores exactly the blocks that have rows, in file order, first-wins, into the table the reader already had. |
| SectionFile.BlockNames | celsus/section_reader.cpp:52-58 | The first block is named `""` and there is one more block per header, named after it, in order. |
| SectionFile.BlockRows | celsus/section_reader.cpp:59-61 | The blocks' rows, taken together in order, are exactly the non-empty non-header lines in file order. |
| SectionFile.NoHeaderOneBlock | celsus/section_reader.cpp:46-61 | A file without headers is a single block `""` holding all its non-empty lines. |
| SectionFile.EmptyLinesIgnored | celsus/section_reader.cpp:50 | Loading a file gives the same blocks as loading its non-empty lines. |
| SectionFile.StoredHaveRows | celsus/section_reader.cpp:54-57 | Every stored block has rows, so a header directly followed by another header stores nothing. |
| SectionFile.SectionsHaveRows | celsus/section_reader.cpp:66-67 | If the table had no empty section, loading adds none. |
| SectionFile.SectionNames | celsus/section_reader.cpp:54-67 | A name is in the table after loading exactly when it was there before or some block with rows carries it. |
| SectionFile.FirstSectionWins | celsus/section_reader.cpp:55 | A repeated section name keeps the rows of its first block with rows. |
| SectionFile.KnownSectionKept | celsus/section_reader.cpp:55 | A section the reader already had keeps its rows across a load. |
| Sections.Copy | celsus/section_reader.cpp:129-130 | The first `count` elements of `out` become the values, in order; the rest of `out` is unchanged. |
| Sections.SectionReader.constructor | celsus/section_reader.cpp:15-21 | A new reader has no sections, no selected section and cursor 0. |
| Sections.SectionReader.Load | celsus/section_reader.cpp:28-74 | An unreadable file returns false and changes nothing. Otherwise the table is the first-wins grouping of the lines. Without a section argument, the result is true and the cursor keeps reading the same rows. With one, the result is whether that section exists. |
| Sections.SectionReader.LoadSection | celsus/section_reader.cpp:76-87 | The cursor is reset to 0. The result is true exactly when the name is stored, which selects that section and its rows. Otherwise no section is selected. |
| Sections.SectionReader.InitCurSection | celsus/section_reader.cpp:90-99 | Fails, changing nothing, exactly when no section is selected or the cursor is at or past its row count. Otherwise it yields the row under the cursor and moves past exactly that row. |
| Sections.SectionReader.ReadValues | celsus/section_reader.cpp:101-133 | One row is consumed even when the read fails. The read succeeds exactly when a row was left and it holds `count` values. On success the first `count` slots of `out` hold them in order; on failure `out` is untouched. |
| Sections.SectionReader.ReadIntsInner | celsus/section_reader.cpp:118-133 | Consumes one row even on failure. Succeeds exactly when a row was left and it parses to `count` integers. On success the first `count` slots of `out` hold them in order and the rest is unchanged; on failure `out` is untouched. |
| Sections.SectionReader.ReadFloatsInner | celsus/section_reader.cpp:101-116 | Consumes one row even on failure. Succeeds exactly when a row was left and it parses to `count` floats. On success the first `count` slots of `out` hold them in order and the rest is unchanged; on failure `out` is untouched. |
| Sections.SectionReader.ReadString | celsus/section_reader.cpp:135-147 | Consumes one row and fails when none is left or the scanner finds no line in it. On success it yields the prefix of the row of the scanned length. |
| Sections.SectionReader.ReadInt | celsus/section_reader.cpp:154-157 | Succeeds exactly when the next row holds one integer, which it writes. |
| Sections.SectionReader.ReadFloat | celsus/section_reader.cpp:149-152 | Succeeds exactly when the next row holds one float, which it writes. |
| Sections.SectionReader.ReadVector3 | celsus/section_reader.cpp:159-162 | Succeeds exactly when the next row holds three floats, which it writes as x, y, z. |
| Sections.SectionReader.ReadColor | celsus/section_reader.cpp:164-167 | Succeeds exactly when the next row holds four floats, which it writes as r, g, b, a. |

## Left out

- Direct3D calls are reduced to abstract steps:
  - `D3DReflect` and the reflection interfaces become the `ShaderDesc` input. Failure is `None`.
  - `CreateBuffer` may succeed or fail; the model does not say when.
  - `Map` and `Unmap` become ghost entries in the buffer's call history. `Map` always succeeds, because the code ignores its result.
  - COM pointers, `Graphics::instance()`, the blob and the shader object are left out.
- File I/O in `SectionReader::load` (`CreateFileA`, `GetFileSize`, `ReadFile`) becomes an `Option<seq<string>>` of already-split lines. `None` covers both failure returns. The buffer (`_buf`) and the unclosed handle on a read failure are not modelled.
- The text scanner is not part of this model. Its functions (`scan_read_line`, `scan_skip_line`, `scan_get_between`, `parse_ints`, `parse_floats`) are abstract functions in `Sections.Scanner`, so the model says nothing about how a line is split, recognised as a header or parsed into numbers.
- The scanner is assumed never to report a line longer than its row (`Sections.ScannerValid`), which is what lets `ReadString` take that prefix.
- Floats are kept as opaque 32-bit patterns (`Sections.Float`). Only counts and copies are modelled, not float parsing or arithmetic.
- Sections.SectionReader.ReadIntsInner: values are unbounded integers, not 32-bit `int`, because the parser that would produce or overflow them is abstract.
- The `D3D11_SHADER_TYPE_DESC` kept with each variable is not modelled: nothing in the core reads it.
- Warnings logged on a failed lookup or size check are not modelled: they are diagnostics with no effect on state.
- `set_variable<U>` takes a typed value; the model takes the value's bytes, so `sizeof(U)` is the length of the byte sequence.
- `load_vertex_shader`, `load_pixel_shader`, `load_shaders`, `set_shaders`, `set_resource`, `set_cbuffer`, `create_input_layout` and `EffectWrapper::unmap_buffers` are declared in the header but defined elsewhere, so they are not part of this model.
- The buffer table is per stage, as in the code. A name already in the stage's own table reuses that buffer, and the two stages share no registry.
- Effect.Shader.DoReflection: requires the reflection data to be consistent. Every variable must lie inside its buffer, and a buffer name must always come with the same size. The code copies with `memcpy` without checking either, so an inconsistent record would write out of bounds.
- Effect.Shader.DoReflection: does not state that the buffers it adds are new objects. It states that they are unmapped, without memory and owned by the stage, which keeps the two stages' tables apart (Effect.EffectWrapper.StagesApart). Effect.Shader.ReflectBuffer states the newness for each record it handles.
- Effect.Shader.UnmapBuffers: visits the buffers in an unspecified order, not in the name order of `std::map`. The order has no effect on the result.
- Effect.EffectWrapper.SetVsVariable: does not track whether the pixel stage's mapped memory could share storage with the vertex stage's. It states that the pixel stage's buffer objects are unchanged, not their memory. Within one stage, distinct memory is part of `Shader.Valid`. SetPsVariable is stated the same way.
- `SectionReader::load` does not clear the sections of an earlier load. The model keeps them, first-wins, as the code does.
- The destructors (`map_delete`, `SAFE_ADELETE`) are not modelled, because memory reclamation has no counterpart in the model.
