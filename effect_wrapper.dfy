/** The per-stage constant-buffer binding engine of `EffectWrapper`
    (celsus/effect_wrapper.hpp): reflection builds the stage's buffers,
    variables and resource tables; `set_variable` writes a value by name,
    mapping the owning buffer lazily; `unmap_buffers` ends the epoch.
    Each buffer keeps the history of the device calls made on it. */
module Effect {
  import opened Wrappers
  import opened MapInsert
  import opened Reflection
  import opened MapDiscipline

  /** `ConstantBuffer`: one dynamic constant buffer of a stage. */
  class ConstantBuffer {
    const name: string
    /** `_desc.ByteWidth`, the declared size of the buffer. */
    const size: nat
    var mapped: bool
    /** `_resource.pData`: the memory handed out by the last map, if any. */
    var resource: array?<bv8>
    /** The maps (`true`) and unmaps (`false`) the device context has
        received for this buffer, in order. */
    ghost var calls: seq<bool>
    /** The stage whose reflection created the buffer. */
    ghost const owner: object

    constructor (name: string, size: nat, ghost owner: object)
      ensures this.name == name && this.size == size && this.owner == owner
      ensures !mapped && resource == null && calls == []
    {
      this.name := name;
      this.size := size;
      this.owner := owner;
      mapped := false;
      resource := null;
      calls := [];
    }

    /** A mapped buffer has memory spanning its declared size, and the flag
        agrees with the device: maps and unmaps alternate, and the buffer is
        mapped exactly when its last call was a map. */
    ghost predicate Valid()
      reads this
    {
      && (mapped ==> resource != null)
      && (resource != null ==> resource.Length == size)
      && Alternates(calls)
      && (mapped <==> |calls| % 2 == 1)
    }

    /** The lazy map of `set_variable`: a buffer that is not mapped is marked
        mapped and mapped with `WRITE_DISCARD`; a mapped one is left alone. */
    method EnsureMapped()
      requires Valid()
      modifies this
      ensures Valid() && mapped && resource != null
      ensures calls == old(calls) + (if old(mapped) then [] else [true])
      ensures old(mapped) ==> resource == old(resource)
      ensures !old(mapped) ==> fresh(resource)
    {
      if !mapped {
        AlternatesExtend(calls, true);
        mapped := true;
        var memory := MapDiscard(this);
        resource := memory;
      }
    }

    /** One step of `unmap_buffers`: a mapped buffer is marked unmapped and
        unmapped; one that is not mapped is left alone. */
    method Release()
      requires Valid()
      modifies this
      ensures Valid() && !mapped && resource == old(resource)
      ensures calls == old(calls) + (if old(mapped) then [false] else [])
      ensures !old(mapped) ==> unchanged(this)
    {
      if mapped {
        AlternatesExtend(calls, false);
        mapped := false;
        Unmap(this);
      }
    }

    /** The `memcpy` of `set_variable`: `value` is copied to `offset`. */
    method Write(offset: nat, value: seq<bv8>)
      requires resource != null && offset + |value| <= resource.Length
      modifies resource
      ensures resource[offset .. offset + |value|] == value
      ensures forall i :: 0 <= i < resource.Length && !(offset <= i < offset + |value|) ==>
        resource[i] == old(resource[i])
    {
      forall k | 0 <= k < |value| {
        resource[offset + k] := value[k];
      }
    }
  }

  /** `BufferVariable`: a variable's owning buffer, `StartOffset` and `Size`.
      (The type description the source also keeps is used only for
      diagnostics and is not modelled.) */
  datatype BufferVariable = BufferVariable(name: string, buffer: ConstantBuffer, startOffset: nat, size: nat)

  // The device and its immediate context, reduced to what the stage asks of them.

  /** `ID3D11Device::CreateBuffer` followed by `new ConstantBuffer`, on
      behalf of stage `owner`: may fail, and the model does not say when; on
      success the buffer is a new object of that stage, unmapped, without
      memory and without device calls. */
  method CreateBuffer(name: string, size: nat, ghost owner: object) returns (cb: Option<ConstantBuffer>)
    ensures cb.Some? ==> fresh(cb.value) && cb.value.name == name && cb.value.size == size && cb.value.owner == owner
    ensures cb.Some? ==> cb.value.Valid() && !cb.value.mapped && cb.value.resource == null && cb.value.calls == []
  {
    var ok: bool := *;
    if ok {
      var b := new ConstantBuffer(name, size, owner);
      cb := Some(b);
    } else {
      cb := None;
    }
  }

  /** `ID3D11DeviceContext::Map` with `D3D11_MAP_WRITE_DISCARD`: fresh memory
      of the buffer's size whose contents are unspecified. Treated as always
      succeeding, as the source ignores its result. */
  method MapDiscard(b: ConstantBuffer) returns (memory: array<bv8>)
    modifies b`calls
    ensures b.calls == old(b.calls) + [true]
    ensures fresh(memory) && memory.Length == b.size
  {
    memory := new bv8[b.size];
    b.calls := b.calls + [true];
  }

  /** `ID3D11DeviceContext::Unmap`. */
  method Unmap(b: ConstantBuffer)
    modifies b`calls
    ensures b.calls == old(b.calls) + [false]
  {
    b.calls := b.calls + [false];
  }

  /** The declared size of each buffer of a buffer table, by name. */
  ghost function SizesOf(buffers: map<string, ConstantBuffer>): map<string, nat>
  {
    map n | n in buffers :: buffers[n].size
  }

  /** The location of each variable of a variable table, by name. */
  ghost function IndexOf(variables: map<string, BufferVariable>): map<string, Location>
  {
    map n | n in variables :: Location(variables[n].buffer.name, variables[n].startOffset, variables[n].size)
  }

  /** Every buffer is stored under its own name and is valid. */
  ghost predicate BuffersValid(buffers: map<string, ConstantBuffer>)
    reads buffers.Values
  {
    forall n :: n in buffers ==> buffers[n].name == n && buffers[n].Valid()
  }

  /** Buffers under different names have different memory. */
  ghost predicate MemoryDistinct(buffers: map<string, ConstantBuffer>)
    reads buffers.Values
  {
    forall n, m :: n in buffers && m in buffers && n != m && buffers[n].resource != null ==>
      buffers[n].resource != buffers[m].resource
  }

  /** Buffers whose memory references are as they were still have distinct
      memory. */
  twostate lemma SameMemoryDistinct(buffers: map<string, ConstantBuffer>)
    requires old(MemoryDistinct(buffers))
    requires forall n :: n in buffers ==> buffers[n].resource == old(buffers[n].resource)
    ensures MemoryDistinct(buffers)
  {
  }

  /** A table that adds only buffers without memory to one whose buffers
      have distinct memory has distinct memory too. */
  lemma ExtendsDistinct(buffers: map<string, ConstantBuffer>, variables: map<string, BufferVariable>,
                        buffers0: map<string, ConstantBuffer>, variables0: map<string, BufferVariable>)
    requires MemoryDistinct(buffers0) && Extends(buffers, variables, buffers0, variables0)
    ensures MemoryDistinct(buffers)
  {
    forall n, m | n in buffers && m in buffers && n != m && buffers[n].resource != null
      ensures buffers[n].resource != buffers[m].resource
    {
      assert n in buffers0;
      if m in buffers0 {
        assert buffers0[n].resource != buffers0[m].resource;
      }
    }
  }

  /** Variable `v` is stored under its own name, lies inside its buffer, and
      its buffer is the one registered under that buffer's name, or one of
      `pending` (a buffer created by the reflection step under way, which
      registers it once its variables are in). */
  ghost predicate VariableValid(buffers: map<string, ConstantBuffer>, n: string, v: BufferVariable, pending: set<ConstantBuffer>)
  {
    && v.name == n
    && v.startOffset + v.size <= v.buffer.size
    && ((v.buffer.name in buffers && buffers[v.buffer.name] == v.buffer) || v.buffer in pending)
  }

  ghost predicate VariablesValid(buffers: map<string, ConstantBuffer>, variables: map<string, BufferVariable>, pending: set<ConstantBuffer>)
  {
    forall n :: n in variables ==> VariableValid(buffers, n, variables[n], pending)
  }

  /** Compared with the tables `buffers0` and `variables0`: every buffer and
      variable they hold is still there, and every other buffer is unmapped,
      without memory and without device calls. */
  ghost predicate Extends(buffers: map<string, ConstantBuffer>, variables: map<string, BufferVariable>,
                          buffers0: map<string, ConstantBuffer>, variables0: map<string, BufferVariable>)
    reads buffers.Values
  {
    && (forall n :: n in buffers0 ==> n in buffers && buffers[n] == buffers0[n])
    && (forall n :: n in buffers && n !in buffers0 ==>
          var b := buffers[n]; !b.mapped && b.resource == null && b.calls == [])
    && (forall n :: n in variables0 ==> n in variables && variables[n] == variables0[n])
  }

  /** Adding a new, unmapped buffer under its own name keeps the tables
      valid, releases the variables that pointed at it as pending, and adds
      its size. */
  lemma RegisterKeepsInvariants(buffers: map<string, ConstantBuffer>, variables: map<string, BufferVariable>,
                                b: ConstantBuffer, buffers0: map<string, ConstantBuffer>, variables0: map<string, BufferVariable>)
    requires b.name !in buffers && b.name !in buffers0
    requires b.Valid() && !b.mapped && b.resource == null && b.calls == []
    requires BuffersValid(buffers) && VariablesValid(buffers, variables, {b})
    requires Extends(buffers, variables, buffers0, variables0)
    ensures BuffersValid(buffers[b.name := b])
    ensures VariablesValid(buffers[b.name := b], variables, {})
    ensures Extends(buffers[b.name := b], variables, buffers0, variables0)
    ensures SizesOf(buffers[b.name := b]) == SizesOf(buffers)[b.name := b.size]
  {
    var nb := buffers[b.name := b];
    assert VariablesValid(nb, variables, {}) by {
      forall n | n in variables
        ensures VariableValid(nb, n, variables[n], {})
      {
        assert VariableValid(buffers, n, variables[n], {b});
      }
    }
  }

  /** `Shader<T>`: the binding table of one stage. */
  class Shader {
    var constantBuffers: map<string, ConstantBuffer>
    var bufferVariables: map<string, BufferVariable>
    var boundTextures: map<string, BindDesc>
    var boundSamplers: map<string, BindDesc>

    constructor ()
      ensures constantBuffers == map[] && bufferVariables == map[]
      ensures boundTextures == map[] && boundSamplers == map[]
    {
      constantBuffers := map[];
      bufferVariables := map[];
      boundTextures := map[];
      boundSamplers := map[];
    }

    ghost function Buffers(): set<ConstantBuffer>
      reads this`constantBuffers
    {
      constantBuffers.Values
    }

    /** The declared size of each buffer, by name. */
    ghost function Sizes(): map<string, nat>
      reads this`constantBuffers
    {
      SizesOf(constantBuffers)
    }

    /** The location of each variable, by name. */
    ghost function Index(): map<string, Location>
      reads this`bufferVariables
    {
      IndexOf(bufferVariables)
    }

    /** Every buffer of the table was created by this stage. */
    ghost predicate Owned()
      reads this`constantBuffers
    {
      forall n :: n in constantBuffers ==> constantBuffers[n].owner == this
    }

    /** Every buffer is valid, stored under its own name and owned by this
        stage, and every variable lies inside a registered buffer. */
    ghost predicate Tables()
      reads this`constantBuffers, this`bufferVariables, Buffers()
    {
      BuffersValid(constantBuffers) && VariablesValid(constantBuffers, bufferVariables, {}) && Owned()
    }

    /** `Tables()`, and different buffers have different memory. */
    ghost predicate Valid()
      reads this`constantBuffers, this`bufferVariables, Buffers()
    {
      Tables() && MemoryDistinct(constantBuffers)
    }

    /** What `set_variable` may touch for `name`: the owning buffer and the
        memory it has. */
    ghost function Footprint(name: string): set<object>
      reads this, (if name in bufferVariables then {bufferVariables[name].buffer} else {})
    {
      if name !in bufferVariables then {}
      else
        var b := bufferVariables[name].buffer;
        {b} + (if b.resource != null then {b.resource} else {})
    }

    /** What one `set_variable(name, value)` did. It succeeds exactly when the
        name is known and the declared size equals the value's size; a failed
        call leaves the buffer and its memory as they were. A successful call
        leaves the owning buffer mapped with the value's bytes at the
        variable's offset. It maps the buffer (fresh memory, one map call) only
        when it was not mapped; otherwise it makes no device call, keeps the
        memory and every byte outside the value's range. */
    twostate predicate Wrote(name: string, value: seq<bv8>, ok: bool)
      reads this, Footprint(name)
    {
      && ok == (name in bufferVariables && bufferVariables[name].size == |value|)
      && (name in bufferVariables ==>
            var v := bufferVariables[name];
            var b := v.buffer;
            && b in old(Buffers())
            && (!ok ==> unchanged(b) && (old(b.resource) != null ==> unchanged(old(b.resource))))
            && (ok ==>
                  && b.mapped
                  && b.resource != null && v.startOffset + |value| <= b.resource.Length
                  && b.resource[v.startOffset .. v.startOffset + |value|] == value
                  && b.calls == old(b.calls) + (if old(b.mapped) then [] else [true])
                  && (!old(b.mapped) ==> fresh(b.resource))
                  && (old(b.mapped) ==>
                        && b.resource == old(b.resource)
                        && forall i :: 0 <= i < b.resource.Length && !(v.startOffset <= i < v.startOffset + |value|) ==>
                             b.resource[i] == old(b.resource[i]))))
    }

    /** `do_reflection`. `reflection` is what the reflection provider reports
        for the stage's bytecode, `None` when `D3DReflect` fails. Buffers are
        looked up by name in this stage's own table: a known name reuses the
        registered buffer, an unknown one gets a new buffer (when the device
        can create it) that is registered after its variables; every buffer
        the table gains is unmapped, without memory and created for this
        stage. Variables and bound resources are inserted first-wins. A failed buffer creation ends
        reflection early: `processed` buffer records were handled, the next
        one named a buffer the stage did not have, and no resource is bound. */
    method DoReflection(reflection: Option<ShaderDesc>) returns (ok: bool, ghost processed: nat)
      requires Valid()
      requires reflection.Some? ==> Consistent(Sizes(), reflection.value.buffers)
      modifies this`constantBuffers, this`bufferVariables, this`boundTextures, this`boundSamplers
      ensures Valid()
      ensures Extends(constantBuffers, bufferVariables, old(constantBuffers), old(bufferVariables))
      ensures reflection.None? ==> !ok && unchanged(this)
      ensures reflection.Some? ==>
        var bufs := reflection.value.buffers;
        && processed <= |bufs|
        && (ok <==> processed == |bufs|)
        && (!ok ==> bufs[processed].name !in constantBuffers)
        && Sizes() == InsertAll(old(Sizes()), SizeDecls(bufs[..processed]))
        && Index() == InsertAll(old(Index()), VarDecls(bufs[..processed]))
      ensures ok ==>
        && reflection.Some?
        && boundTextures == InsertAll(old(boundTextures), Bindings(reflection.value.resources, Texture))
        && boundSamplers == InsertAll(old(boundSamplers), Bindings(reflection.value.resources, Sampler))
      ensures !ok ==> boundTextures == old(boundTextures) && boundSamplers == old(boundSamplers)
    {
      if reflection.None? {
        return false, 0;
      }
      ok, processed := ReflectBuffers(reflection.value.buffers);
      if ok {
        BindResources(reflection.value.resources);
      }
    }

    /** The buffer loop of `do_reflection`. */
    method ReflectBuffers(bufs: seq<BufferDesc>) returns (ok: bool, ghost processed: nat)
      requires Valid()
      requires Consistent(Sizes(), bufs)
      modifies this`constantBuffers, this`bufferVariables
      ensures Valid()
      ensures Extends(constantBuffers, bufferVariables, old(constantBuffers), old(bufferVariables))
      ensures processed <= |bufs| && (ok <==> processed == |bufs|)
      ensures !ok ==> bufs[processed].name !in constantBuffers
      ensures Sizes() == InsertAll(old(Sizes()), SizeDecls(bufs[..processed]))
      ensures Index() == InsertAll(old(Index()), VarDecls(bufs[..processed]))
    {
      ghost var sizes0, index0 := Sizes(), Index();
      ghost var bufs0, vars0 := constantBuffers, bufferVariables;

      var i := 0;
      while i < |bufs|
        invariant 0 <= i <= |bufs|
        invariant Tables() && Extends(constantBuffers, bufferVariables, bufs0, vars0)
        invariant Sizes() == InsertAll(sizes0, SizeDecls(bufs[..i]))
        invariant Index() == InsertAll(index0, VarDecls(bufs[..i]))
      {
        var made := ReflectNext(bufs, i, sizes0, index0, bufs0, vars0);
        if !made {
          ExtendsDistinct(constantBuffers, bufferVariables, bufs0, vars0);
          return false, i;
        }
        i := i + 1;
      }
      ExtendsDistinct(constantBuffers, bufferVariables, bufs0, vars0);
      return true, i;
    }

    /** Record `i` of the buffer loop: the loop's invariant carried from `i`
        to `i + 1`, or the failure that stops the loop. */
    method ReflectNext(bufs: seq<BufferDesc>, i: nat, ghost sizes0: map<string, nat>, ghost index0: map<string, Location>,
                       ghost bufs0: map<string, ConstantBuffer>, ghost vars0: map<string, BufferVariable>)
      returns (ok: bool)
      requires Consistent(sizes0, bufs) && i < |bufs|
      requires Tables() && Extends(constantBuffers, bufferVariables, bufs0, vars0)
      requires Sizes() == InsertAll(sizes0, SizeDecls(bufs[..i]))
      requires Index() == InsertAll(index0, VarDecls(bufs[..i]))
      modifies this`constantBuffers, this`bufferVariables
      ensures Tables() && Extends(constantBuffers, bufferVariables, bufs0, vars0)
      ensures ok ==> Sizes() == InsertAll(sizes0, SizeDecls(bufs[..i + 1]))
      ensures ok ==> Index() == InsertAll(index0, VarDecls(bufs[..i + 1]))
      ensures !ok ==> bufs[i].name !in constantBuffers && unchanged(this)
    {
      ReflectionStep(sizes0, index0, bufs, i);
      ok := ReflectBuffer(bufs[i], bufs0, vars0);
    }

    /** One iteration of the buffer loop of `do_reflection`, for record `d`. */
    method ReflectBuffer(d: BufferDesc, ghost bufs0: map<string, ConstantBuffer>, ghost vars0: map<string, BufferVariable>)
      returns (ok: bool)
      requires Tables() && Extends(constantBuffers, bufferVariables, bufs0, vars0)
      requires d.name in Sizes() ==> Sizes()[d.name] == d.size
      requires forall j :: 0 <= j < |d.variables| ==> d.variables[j].startOffset + d.variables[j].size <= d.size
      modifies this`constantBuffers, this`bufferVariables
      ensures Tables() && Extends(constantBuffers, bufferVariables, bufs0, vars0)
      ensures ok ==> Sizes() == InsertFirst(old(Sizes()), d.name, d.size)
      ensures ok ==> Index() == InsertAll(old(Index()), VarDeclsOf(d.name, d.variables))
      ensures !ok ==> d.name !in constantBuffers && unchanged(this)
      ensures d.name in old(constantBuffers) ==> ok && constantBuffers == old(constantBuffers)
      ensures ok && d.name !in old(constantBuffers) ==> d.name in constantBuffers && fresh(constantBuffers[d.name])
      ensures ok && d.name !in old(constantBuffers) ==>
        && constantBuffers.Keys == old(constantBuffers).Keys + {d.name}
        && forall n :: n in old(constantBuffers) ==> constantBuffers[n] == old(constantBuffers)[n]
    {
      var cur: ConstantBuffer;
      var created := false;
      if d.name in constantBuffers {
        cur := constantBuffers[d.name];
      } else {
        var made := CreateBuffer(d.name, d.size, this);
        if made.None? {
          return false;
        }
        cur := made.value;
        created := true;
      }
      InsertVariables(cur, d.variables, if created then {cur} else {}, bufs0, vars0);
      if created {
        ghost var before := constantBuffers;
        RegisterBuffer(cur, bufs0, vars0);
        assert constantBuffers == InsertFirst(before, cur.name, cur);
      }
      ok := true;
    }

    /** The insertion of a newly created buffer into the buffer table, which
        `do_reflection` does once the buffer's variables are in. */
    method RegisterBuffer(cur: ConstantBuffer, ghost bufs0: map<string, ConstantBuffer>, ghost vars0: map<string, BufferVariable>)
      requires Extends(constantBuffers, bufferVariables, bufs0, vars0) && cur.name !in bufs0
      requires cur.name !in constantBuffers
      requires cur.Valid() && !cur.mapped && cur.resource == null && cur.calls == []
      requires BuffersValid(constantBuffers) && Owned() && cur.owner == this
      requires VariablesValid(constantBuffers, bufferVariables, {cur})
      modifies this`constantBuffers
      ensures Tables() && Extends(constantBuffers, bufferVariables, bufs0, vars0)
      ensures constantBuffers == old(constantBuffers)[cur.name := cur]
      ensures Sizes() == old(Sizes())[cur.name := cur.size]
    {
      RegisterKeepsInvariants(constantBuffers, bufferVariables, cur, bufs0, vars0);
      constantBuffers := constantBuffers[cur.name := cur];
    }

    /** The variable loop of `do_reflection` for one buffer `cur`: each
        variable whose name is not yet known is stored, pointing at `cur`. */
    method InsertVariables(cur: ConstantBuffer, vars: seq<VarDesc>, ghost pending: set<ConstantBuffer>,
                           ghost bufs0: map<string, ConstantBuffer>, ghost vars0: map<string, BufferVariable>)
      requires VariablesValid(constantBuffers, bufferVariables, pending)
      requires Extends(constantBuffers, bufferVariables, bufs0, vars0)
      requires cur in pending || (cur.name in constantBuffers && constantBuffers[cur.name] == cur)
      requires forall j :: 0 <= j < |vars| ==> vars[j].startOffset + vars[j].size <= cur.size
      modifies this`bufferVariables
      ensures VariablesValid(constantBuffers, bufferVariables, pending)
      ensures Extends(constantBuffers, bufferVariables, bufs0, vars0)
      ensures Index() == InsertAll(old(Index()), VarDeclsOf(cur.name, vars))
    {
      ghost var index0 := Index();
      var j := 0;
      while j < |vars|
        invariant 0 <= j <= |vars|
        invariant VariablesValid(constantBuffers, bufferVariables, pending)
        invariant Extends(constantBuffers, bufferVariables, bufs0, vars0)
        invariant Index() == InsertAll(index0, VarDeclsOf(cur.name, vars[..j]))
      {
        var vd := vars[j];
        ghost var loc := Location(cur.name, vd.startOffset, vd.size);
        VarDeclsOfSnoc(cur.name, vars, j);
        InsertAllSnoc(index0, VarDeclsOf(cur.name, vars[..j]), vd.name, loc);
        InsertVariable(cur, vd, pending, bufs0, vars0);
        j := j + 1;
      }
      assert vars[..|vars|] == vars;
    }

    /** One step of that loop: `vd` is stored, pointing at `cur`, unless
        its name is already known. */
    method InsertVariable(cur: ConstantBuffer, vd: VarDesc, ghost pending: set<ConstantBuffer>,
                          ghost bufs0: map<string, ConstantBuffer>, ghost vars0: map<string, BufferVariable>)
      requires VariablesValid(constantBuffers, bufferVariables, pending)
      requires Extends(constantBuffers, bufferVariables, bufs0, vars0)
      requires cur in pending || (cur.name in constantBuffers && constantBuffers[cur.name] == cur)
      requires vd.startOffset + vd.size <= cur.size
      modifies this`bufferVariables
      ensures VariablesValid(constantBuffers, bufferVariables, pending)
      ensures Extends(constantBuffers, bufferVariables, bufs0, vars0)
      ensures Index() == InsertFirst(old(Index()), vd.name, Location(cur.name, vd.startOffset, vd.size))
    {
      if vd.name !in bufferVariables {
        bufferVariables := bufferVariables[vd.name := BufferVariable(vd.name, cur, vd.startOffset, vd.size)];
        assert Index() == old(Index())[vd.name := Location(cur.name, vd.startOffset, vd.size)];
      }
    }

    /** The bound-resource loop of `do_reflection`: textures go to the texture
        table, samplers to the sampler table, other inputs nowhere. */
    method BindResources(res: seq<BindDesc>)
      modifies this`boundTextures, this`boundSamplers
      ensures boundTextures == InsertAll(old(boundTextures), Bindings(res, Texture))
      ensures boundSamplers == InsertAll(old(boundSamplers), Bindings(res, Sampler))
    {
      ghost var textures0, samplers0 := boundTextures, boundSamplers;
      var r := 0;
      while r < |res|
        invariant 0 <= r <= |res|
        invariant boundTextures == InsertAll(textures0, Bindings(res[..r], Texture))
        invariant boundSamplers == InsertAll(samplers0, Bindings(res[..r], Sampler))
      {
        var rd := res[r];
        BindStep(textures0, res, r, Texture);
        BindStep(samplers0, res, r, Sampler);
        match rd.kind {
          case Texture =>
            boundTextures := InsertFirst(boundTextures, rd.name, rd);
          case Sampler =>
            boundSamplers := InsertFirst(boundSamplers, rd.name, rd);
          case OtherInput =>
        }
        r := r + 1;
      }
      assert res[..|res|] == res;
    }

    /** `set_variable<U>(name, value)`, with the value given as its bytes. */
    method SetVariable(name: string, value: seq<bv8>) returns (ok: bool)
      requires Valid()
      modifies Footprint(name)
      ensures Valid() && unchanged(this)
      ensures Wrote(name, value, ok)
      ensures forall c :: c in Buffers() && c.resource != null && (name !in bufferVariables || c != bufferVariables[name].buffer) ==>
        unchanged(c.resource)
    {
      if name !in bufferVariables {
        return false;
      }
      var v := bufferVariables[name];
      if v.size != |value| {
        return false;
      }
      var b := v.buffer;
      assert VariableValid(constantBuffers, name, v, {});
      b.EnsureMapped();
      b.Write(v.startOffset, value);
      forall n, m | n in constantBuffers && m in constantBuffers && n != m && constantBuffers[n].resource != null
        ensures constantBuffers[n].resource != constantBuffers[m].resource
      {
        if constantBuffers[n] != b && constantBuffers[m] != b {
          assert old(constantBuffers[n].resource != constantBuffers[m].resource);
        }
      }
      ok := true;
    }

    /** `unmap_buffers`: every buffer that is mapped is unmapped, once; the
        others are left alone, so a second call in a row makes no device
        call at all. */
    method UnmapBuffers()
      requires Valid()
      modifies Buffers()
      ensures Valid() && unchanged(this)
      ensures forall b :: b in Buffers() ==>
        !b.mapped && b.resource == old(b.resource) && b.calls == old(b.calls) + (if old(b.mapped) then [false] else [])
      ensures (forall b :: b in old(Buffers()) ==> !old(b.mapped)) ==> forall b :: b in old(Buffers()) ==> unchanged(b)
    {
      var keys := constantBuffers.Keys;
      while keys != {}
        decreases keys
        invariant keys <= constantBuffers.Keys
        invariant BuffersValid(constantBuffers)
        invariant forall n :: n in constantBuffers ==>
          var b := constantBuffers[n];
          b.resource == old(b.resource) &&
          (n !in keys ==> !b.mapped && b.calls == old(b.calls) + (if old(b.mapped) then [false] else [])) &&
          (n in keys || !old(b.mapped) ==> unchanged(b))
      {
        var n :| n in keys;
        constantBuffers[n].Release();
        keys := keys - {n};
      }
      SameMemoryDistinct(constantBuffers);
    }
  }

  /** `EffectWrapper`, reduced to its two stages and the delegating writers. */
  class EffectWrapper {
    const vs: Shader
    const ps: Shader

    constructor ()
      ensures Valid() && fresh(vs) && fresh(ps)
      ensures vs.constantBuffers == map[] && ps.constantBuffers == map[]
    {
      vs := new Shader();
      ps := new Shader();
    }

    ghost predicate Valid()
      reads this, vs, ps, vs.Buffers(), ps.Buffers()
    {
      vs != ps && vs.Valid() && ps.Valid()
    }

    /** The stages own separate buffer tables: no buffer is shared between
        them, whatever reflection each of them has done. */
    lemma StagesApart()
      requires Valid()
      ensures vs.Buffers() !! ps.Buffers()
    {
      assert forall b :: b in vs.Buffers() ==> b.owner == vs;
      assert forall b :: b in ps.Buffers() ==> b.owner == ps;
    }

    /** `set_vs_variable`: writes into the vertex stage only. */
    method SetVsVariable(name: string, value: seq<bv8>) returns (ok: bool)
      requires Valid()
      modifies vs.Footprint(name)
      ensures Valid() && unchanged(vs, ps) && unchanged(ps.Buffers())
      ensures vs.Wrote(name, value, ok)
    {
      StagesApart();
      ok := vs.SetVariable(name, value);
      assert unchanged(ps.Buffers());
    }

    /** `set_ps_variable`: writes into the pixel stage only. */
    method SetPsVariable(name: string, value: seq<bv8>) returns (ok: bool)
      requires Valid()
      modifies ps.Footprint(name)
      ensures Valid() && unchanged(vs, ps) && unchanged(vs.Buffers())
      ensures ps.Wrote(name, value, ok)
    {
      StagesApart();
      ok := ps.SetVariable(name, value);
      assert unchanged(vs.Buffers());
    }
  }
}
