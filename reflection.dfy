/** What shader reflection reports about one compiled stage, and what
    `Shader<T>::do_reflection` (celsus/effect_wrapper.hpp) records from it,
    stated over names: the sizes of the constant buffers, the location of every
    buffer variable, and the texture and sampler tables. */
module Reflection {
  import opened MapInsert

  /** One variable of a constant buffer (`D3D11_SHADER_VARIABLE_DESC`:
      `Name`, `StartOffset`, `Size`). */
  datatype VarDesc = VarDesc(name: string, startOffset: nat, size: nat)

  /** One constant buffer (`D3D11_SHADER_BUFFER_DESC`: `Name`, `Size`) with
      its variables in reflection order. */
  datatype BufferDesc = BufferDesc(name: string, size: nat, variables: seq<VarDesc>)

  /** `D3D_SHADER_INPUT_TYPE`: the two kinds the stage keeps, and the rest. */
  datatype InputType = Texture | Sampler | OtherInput

  /** One bound resource (`D3D11_SHADER_INPUT_BIND_DESC`). */
  datatype BindDesc = BindDesc(name: string, kind: InputType, bindPoint: nat, bindCount: nat)

  /** The output of the reflection provider for one stage. */
  datatype ShaderDesc = ShaderDesc(buffers: seq<BufferDesc>, resources: seq<BindDesc>)

  /** Where a variable lives: the name of its buffer, its byte offset and
      its byte size. */
  datatype Location = Location(bufferName: string, startOffset: nat, size: nat)

  /** The (name, size) of every buffer, in reflection order. */
  function SizeDecls(bufs: seq<BufferDesc>): (r: seq<(string, nat)>)
    ensures |r| == |bufs|
    ensures forall k :: 0 <= k < |bufs| ==> r[k] == (bufs[k].name, bufs[k].size)
  {
    seq(|bufs|, k requires 0 <= k < |bufs| => (bufs[k].name, bufs[k].size))
  }

  lemma SizeDeclsSnoc(bufs: seq<BufferDesc>, i: nat)
    requires i < |bufs|
    ensures SizeDecls(bufs[..i + 1]) == SizeDecls(bufs[..i]) + [(bufs[i].name, bufs[i].size)]
  {
  }

  /** The variables of one buffer named `bufferName`, each with its location. */
  function VarDeclsOf(bufferName: string, vars: seq<VarDesc>): (r: seq<(string, Location)>)
    ensures |r| == |vars|
    ensures forall k :: 0 <= k < |vars| ==>
      r[k] == (vars[k].name, Location(bufferName, vars[k].startOffset, vars[k].size))
  {
    seq(|vars|, k requires 0 <= k < |vars| =>
      (vars[k].name, Location(bufferName, vars[k].startOffset, vars[k].size)))
  }

  lemma VarDeclsOfSnoc(bufferName: string, vars: seq<VarDesc>, j: nat)
    requires j < |vars|
    ensures VarDeclsOf(bufferName, vars[..j + 1]) ==
      VarDeclsOf(bufferName, vars[..j]) + [(vars[j].name, Location(bufferName, vars[j].startOffset, vars[j].size))]
  {
  }

  /** Every variable declaration of `bufs`, buffer by buffer, in order. */
  function VarDecls(bufs: seq<BufferDesc>): seq<(string, Location)>
    decreases |bufs|
  {
    if bufs == [] then []
    else
      var last := bufs[|bufs| - 1];
      VarDecls(bufs[..|bufs| - 1]) + VarDeclsOf(last.name, last.variables)
  }

  lemma VarDeclsSnoc(bufs: seq<BufferDesc>, i: nat)
    requires i < |bufs|
    ensures VarDecls(bufs[..i + 1]) == VarDecls(bufs[..i]) + VarDeclsOf(bufs[i].name, bufs[i].variables)
  {
    assert bufs[..i + 1][..i] == bufs[..i];
  }

  /** The bound resources of one kind, with their names, in order. */
  function Bindings(res: seq<BindDesc>, kind: InputType): seq<(string, BindDesc)>
    decreases |res|
  {
    if res == [] then []
    else
      var last := res[|res| - 1];
      Bindings(res[..|res| - 1], kind) + (if last.kind == kind then [(last.name, last)] else [])
  }

  /** One more resource adds its pair exactly when it is of the kind. */
  lemma BindingsSnoc(res: seq<BindDesc>, r: nat, kind: InputType)
    requires r < |res|
    ensures Bindings(res[..r + 1], kind) ==
      if res[r].kind == kind then Bindings(res[..r], kind) + [(res[r].name, res[r])] else Bindings(res[..r], kind)
  {
    assert res[..r + 1][..r] == res[..r];
    assert Bindings(res[..r], kind) + [] == Bindings(res[..r], kind);
  }

  /** One more resource, inserted into a table of its kind: the table after
      `res[..r + 1]` is the table after `res[..r]` with `res[r]` inserted
      first-wins exactly when it is of the kind. */
  lemma BindStep(m: map<string, BindDesc>, res: seq<BindDesc>, r: nat, kind: InputType)
    requires r < |res|
    ensures InsertAll(m, Bindings(res[..r + 1], kind)) ==
      if res[r].kind == kind then InsertFirst(InsertAll(m, Bindings(res[..r], kind)), res[r].name, res[r])
      else InsertAll(m, Bindings(res[..r], kind))
  {
    BindingsSnoc(res, r, kind);
    if res[r].kind == kind {
      InsertAllSnoc(m, Bindings(res[..r], kind), res[r].name, res[r]);
    }
  }

  /** What the reflection provider guarantees and the stage relies on without
      checking: every variable lies inside its buffer, and a buffer name that
      is already known (from `sizes`, or from an earlier record) always comes
      with the same size. */
  ghost predicate Consistent(sizes: map<string, nat>, bufs: seq<BufferDesc>)
  {
    && (forall i, j :: 0 <= i < |bufs| && 0 <= j < |bufs[i].variables| ==>
          bufs[i].variables[j].startOffset + bufs[i].variables[j].size <= bufs[i].size)
    && (forall i :: 0 <= i < |bufs| && bufs[i].name in sizes ==> sizes[bufs[i].name] == bufs[i].size)
    && (forall i, j :: 0 <= i < j < |bufs| && bufs[i].name == bufs[j].name ==> bufs[i].size == bufs[j].size)
  }

  /** Under `Consistent`, a buffer reused for record `i` has the size that
      record declares. */
  lemma KnownBufferSize(sizes: map<string, nat>, bufs: seq<BufferDesc>, i: nat)
    requires Consistent(sizes, bufs) && i < |bufs|
    ensures bufs[i].name in InsertAll(sizes, SizeDecls(bufs[..i])) ==>
      InsertAll(sizes, SizeDecls(bufs[..i]))[bufs[i].name] == bufs[i].size
  {
    var decls := SizeDecls(bufs[..i]);
    forall k | 0 <= k < |decls| && decls[k].0 == bufs[i].name
      ensures decls[k].1 == bufs[i].size
    {
      assert bufs[..i][k] == bufs[k];
    }
    InsertAllAgreeing(sizes, decls, bufs[i].name, bufs[i].size);
  }

  /** What processing record `i` adds to the name-level tables, and what it
      may assume about a reused buffer. */
  lemma ReflectionStep(sizes: map<string, nat>, index: map<string, Location>, bufs: seq<BufferDesc>, i: nat)
    requires Consistent(sizes, bufs) && i < |bufs|
    ensures var s := InsertAll(sizes, SizeDecls(bufs[..i]));
      bufs[i].name in s ==> s[bufs[i].name] == bufs[i].size
    ensures forall j :: 0 <= j < |bufs[i].variables| ==>
      bufs[i].variables[j].startOffset + bufs[i].variables[j].size <= bufs[i].size
    ensures InsertAll(sizes, SizeDecls(bufs[..i + 1])) ==
      InsertFirst(InsertAll(sizes, SizeDecls(bufs[..i])), bufs[i].name, bufs[i].size)
    ensures InsertAll(index, VarDecls(bufs[..i + 1])) ==
      InsertAll(InsertAll(index, VarDecls(bufs[..i])), VarDeclsOf(bufs[i].name, bufs[i].variables))
  {
    KnownBufferSize(sizes, bufs, i);
    SizeDeclsSnoc(bufs, i);
    VarDeclsSnoc(bufs, i);
    InsertAllSnoc(sizes, SizeDecls(bufs[..i]), bufs[i].name, bufs[i].size);
    InsertAllAppend(index, VarDecls(bufs[..i]), VarDeclsOf(bufs[i].name, bufs[i].variables));
  }

  lemma {:induction false} VarDeclsAppend(a: seq<BufferDesc>, b: seq<BufferDesc>)
    ensures VarDecls(a + b) == VarDecls(a) + VarDecls(b)
    decreases |b|
  {
    if b == [] {
      assert a + b == a;
    } else {
      var ab := a + b;
      var last := b[|b| - 1];
      var x, y, z := VarDecls(a), VarDecls(b[..|b| - 1]), VarDeclsOf(last.name, last.variables);
      assert ab[..|ab| - 1] == a + b[..|b| - 1] && ab[|ab| - 1] == last;
      VarDeclsAppend(a, b[..|b| - 1]);
      assert (x + y) + z == x + (y + z);
    }
  }

  /** A name is declared by `VarDecls(bufs)` exactly when some variable of
      some buffer of `bufs` carries it. */
  lemma VarDeclsNames(bufs: seq<BufferDesc>, n: string)
    ensures (exists k :: 0 <= k < |VarDecls(bufs)| && VarDecls(bufs)[k].0 == n) <==>
            (exists i, j :: 0 <= i < |bufs| && 0 <= j < |bufs[i].variables| && bufs[i].variables[j].name == n)
  {
    if exists k :: 0 <= k < |VarDecls(bufs)| && VarDecls(bufs)[k].0 == n {
      var k :| 0 <= k < |VarDecls(bufs)| && VarDecls(bufs)[k].0 == n;
      var i, j := DeclaredBy(bufs, k);
    }
    if exists i, j :: 0 <= i < |bufs| && 0 <= j < |bufs[i].variables| && bufs[i].variables[j].name == n {
      var i, j :| 0 <= i < |bufs| && 0 <= j < |bufs[i].variables| && bufs[i].variables[j].name == n;
      var k := DeclarationOf(bufs, i, j);
    }
  }

  /** Every declaration comes from some variable of some buffer. */
  lemma {:induction false} DeclaredBy(bufs: seq<BufferDesc>, k: nat) returns (i: nat, j: nat)
    requires k < |VarDecls(bufs)|
    ensures i < |bufs| && j < |bufs[i].variables| && bufs[i].variables[j].name == VarDecls(bufs)[k].0
    decreases |bufs|
  {
    var init, last := bufs[..|bufs| - 1], bufs[|bufs| - 1];
    var head, tail := VarDecls(init), VarDeclsOf(last.name, last.variables);
    assert VarDecls(bufs) == head + tail;
    if k < |head| {
      assert VarDecls(bufs)[k] == head[k];
      i, j := DeclaredBy(init, k);
      assert bufs[i] == init[i];
    } else {
      assert VarDecls(bufs)[k] == tail[k - |head|];
      i, j := |bufs| - 1, k - |head|;
    }
  }

  /** Every variable of every buffer is declared. */
  lemma {:induction false} DeclarationOf(bufs: seq<BufferDesc>, i: nat, j: nat) returns (k: nat)
    requires i < |bufs| && j < |bufs[i].variables|
    ensures k < |VarDecls(bufs)| && VarDecls(bufs)[k].0 == bufs[i].variables[j].name
    decreases |bufs|
  {
    var init, last := bufs[..|bufs| - 1], bufs[|bufs| - 1];
    var head, tail := VarDecls(init), VarDeclsOf(last.name, last.variables);
    assert VarDecls(bufs) == head + tail;
    if i < |init| {
      assert init[i] == bufs[i];
      k := DeclarationOf(init, i, j);
      assert VarDecls(bufs)[k] == head[k];
    } else {
      k := |head| + j;
      assert VarDecls(bufs)[k] == tail[j];
    }
  }

  /** After reflection the stage knows a variable name exactly when it knew it
      before or some buffer of the stage declares it. */
  lemma VariableNames(m: map<string, Location>, bufs: seq<BufferDesc>, n: string)
    ensures n in InsertAll(m, VarDecls(bufs)) <==>
      n in m || exists i, j :: 0 <= i < |bufs| && 0 <= j < |bufs[i].variables| && bufs[i].variables[j].name == n
  {
    InsertAllKeys(m, VarDecls(bufs), n);
    VarDeclsNames(bufs, n);
  }

  /** First declaration wins: a name the stage knew keeps its location, and a
      new name gets the location of its first declaration (buffer `i`,
      variable `j`), in the buffer current at that point; later declarations
      of the same name, in the same buffer or another, are ignored. */
  lemma FirstDeclarationWins(m: map<string, Location>, bufs: seq<BufferDesc>, i: nat, j: nat)
    requires i < |bufs| && j < |bufs[i].variables|
    requires bufs[i].variables[j].name !in m
    requires forall i', j' :: 0 <= i' < i && 0 <= j' < |bufs[i'].variables| ==>
      bufs[i'].variables[j'].name != bufs[i].variables[j].name
    requires forall j' :: 0 <= j' < j ==> bufs[i].variables[j'].name != bufs[i].variables[j].name
    ensures var v := bufs[i].variables[j];
      v.name in InsertAll(m, VarDecls(bufs)) &&
      InsertAll(m, VarDecls(bufs))[v.name] == Location(bufs[i].name, v.startOffset, v.size)
  {
    var v := bufs[i].variables[j];
    var a, b, c := VarDecls(bufs[..i]), VarDeclsOf(bufs[i].name, bufs[i].variables), VarDecls(bufs[i + 1..]);
    VarDeclsSplit(m, bufs, i);
    var ma := InsertAll(m, a);
    assert v.name !in ma by {
      NotDeclaredBefore(bufs, i, v.name);
      InsertAllKeys(m, a, v.name);
    }
    assert FirstKeyAt(b, v.name, j);
    InsertAllFirstWins(ma, b, v.name, j);
    InsertAllKeepsExisting(InsertAll(ma, b), c, v.name);
  }

  /** Reflection over `bufs` is reflection over the buffers before `i`, then
      buffer `i`, then the buffers after it. */
  lemma VarDeclsSplit(m: map<string, Location>, bufs: seq<BufferDesc>, i: nat)
    requires i < |bufs|
    ensures InsertAll(m, VarDecls(bufs)) ==
      InsertAll(InsertAll(InsertAll(m, VarDecls(bufs[..i])), VarDeclsOf(bufs[i].name, bufs[i].variables)), VarDecls(bufs[i + 1..]))
  {
    var before, here, after := bufs[..i], [bufs[i]], bufs[i + 1..];
    assert bufs == before + here + after;
    VarDeclsAppend(before + here, after);
    VarDeclsAppend(before, here);
    assert here[..0] == [];
    var a, b, c := VarDecls(before), VarDecls(here), VarDecls(after);
    assert b == VarDeclsOf(bufs[i].name, bufs[i].variables);
    InsertAllAppend(m, a + b, c);
    InsertAllAppend(m, a, b);
  }

  /** A name no variable of the buffers before `i` carries is not declared by them. */
  lemma NotDeclaredBefore(bufs: seq<BufferDesc>, i: nat, n: string)
    requires i <= |bufs|
    requires forall i', j' :: 0 <= i' < i && 0 <= j' < |bufs[i'].variables| ==> bufs[i'].variables[j'].name != n
    ensures forall k :: 0 <= k < |VarDecls(bufs[..i])| ==> VarDecls(bufs[..i])[k].0 != n
  {
    forall k | 0 <= k < |VarDecls(bufs[..i])|
      ensures VarDecls(bufs[..i])[k].0 != n
    {
      var i', j' := DeclaredBy(bufs[..i], k);
      assert bufs[..i][i'] == bufs[i'];
    }
  }

  /** Resource `i` of `res` is of kind `kind` and is named `n`. */
  ghost predicate OfKindAt(res: seq<BindDesc>, kind: InputType, n: string, i: int)
  {
    0 <= i < |res| && res[i].kind == kind && res[i].name == n
  }

  /** Resource `i` is the first of kind `kind` named `n`. */
  ghost predicate FirstOfKindAt(res: seq<BindDesc>, kind: InputType, n: string, i: int)
  {
    OfKindAt(res, kind, n, i) && forall i' :: 0 <= i' < i ==> !OfKindAt(res, kind, n, i')
  }

  /** The table kept for one resource kind holds only resources of that kind:
      a name is added exactly when some resource of the kind carries it, and
      then it maps to the first such resource. Resources of other kinds never
      reach the table. */
  lemma BindingsOfKind(m: map<string, BindDesc>, res: seq<BindDesc>, kind: InputType, n: string)
    requires n !in m
    ensures n in InsertAll(m, Bindings(res, kind)) <==> exists i :: OfKindAt(res, kind, n, i)
    ensures n in InsertAll(m, Bindings(res, kind)) ==>
      exists i :: FirstOfKindAt(res, kind, n, i) && InsertAll(m, Bindings(res, kind))[n] == res[i]
  {
    if n in InsertAll(m, Bindings(res, kind)) {
      var i := FirstBinding(m, res, kind, n);
    }
    if exists i :: OfKindAt(res, kind, n, i) {
      var i :| OfKindAt(res, kind, n, i);
      BoundIfOfKind(m, res, kind, n, i);
    }
  }

  /** A name the table gained comes from the first resource of the kind
      that carries it. */
  lemma {:induction false} FirstBinding(m: map<string, BindDesc>, res: seq<BindDesc>, kind: InputType, n: string)
    returns (i: nat)
    requires n !in m && n in InsertAll(m, Bindings(res, kind))
    ensures FirstOfKindAt(res, kind, n, i) && InsertAll(m, Bindings(res, kind))[n] == res[i]
    decreases |res|
  {
    var r := |res| - 1;
    var init := res[..r];
    assert res == res[..r + 1];
    BindingsSnoc(res, r, kind);
    InsertAllSnoc(m, Bindings(init, kind), res[r].name, res[r]);
    var mi := InsertAll(m, Bindings(init, kind));
    assert forall i' :: 0 <= i' < r ==> (OfKindAt(init, kind, n, i') <==> OfKindAt(res, kind, n, i'));
    if n in mi {
      i := FirstBinding(m, init, kind, n);
    } else {
      i := r;
      forall i' | 0 <= i' < r
        ensures !OfKindAt(res, kind, n, i')
      {
        if OfKindAt(init, kind, n, i') {
          BoundIfOfKind(m, init, kind, n, i');
        }
      }
    }
  }

  /** A resource of the kind always has its name in the table. */
  lemma {:induction false} BoundIfOfKind(m: map<string, BindDesc>, res: seq<BindDesc>, kind: InputType, n: string, i: nat)
    requires OfKindAt(res, kind, n, i)
    ensures n in InsertAll(m, Bindings(res, kind))
    decreases |res|
  {
    var r := |res| - 1;
    var init := res[..r];
    assert res == res[..r + 1];
    BindingsSnoc(res, r, kind);
    InsertAllSnoc(m, Bindings(init, kind), res[r].name, res[r]);
    if i < r {
      assert OfKindAt(init, kind, n, i);
      BoundIfOfKind(m, init, kind, n, i);
      var mi := InsertAll(m, Bindings(init, kind));
      assert n in InsertFirst(mi, res[r].name, res[r]);
    }
  }
}
