/** The unit compiler of the resource pipeline: the name tables for camera
    projections and light kinds, the merge of a unit with the chain of
    prefabs it derives from, the per-type accumulation of compiled component
    data, and the layout of the compiled blob.

    JSON text is kept opaque (`Json`); what the compiler parses out of it (a
    component's id, type and "data" member, a prefab's component lists, the
    editor name) is given as already-parsed fields. */
module UnitCompiler {
  import opened Wrappers

  /** The "not found" index of `component_index`. */
  const UINT32_MAX: nat := 0xFFFF_FFFF

  /** The alignment of the component header written by `blob`: the header
      consists of 32-bit fields. */
  const ALIGN: nat := 4

  /** A 32-bit string hash. */
  type StringId32 = x: nat | x <= UINT32_MAX

  newtype Byte = b: int | 0 <= b < 256

  /** A JSON value, as text. */
  type Json = string

  // ---------------------------------------------------------------------
  // Name tables

  datatype ProjectionType = Perspective | Orthographic | ProjectionCount

  datatype LightType = Directional | Omni | Spot | LightCount

  /** `s_projection`: one row per projection type, in enum order. */
  const ProjectionNames: seq<(string, ProjectionType)> :=
    [("perspective", Perspective), ("orthographic", Orthographic)]

  /** `s_light`: one row per light type, in enum order. */
  const LightNames: seq<(string, LightType)> :=
    [("directional", Directional), ("omni", Omni), ("spot", Spot)]

  /** The type of the first row of `table` named `name`, or `missing`. */
  function Lookup<T>(table: seq<(string, T)>, name: string, missing: T): T
    decreases |table|
  {
    if |table| == 0 then missing
    else if table[0].0 == name then table[0].1
    else Lookup(table[1..], name, missing)
  }

  /** The search both `*_name_to_enum` functions make, row by row. */
  method FindName<T>(table: seq<(string, T)>, name: string, missing: T) returns (r: T)
    ensures r == Lookup(table, name, missing)
  {
    for i := 0 to |table|
      invariant Lookup(table[i..], name, missing) == Lookup(table, name, missing)
    {
      assert table[i..][1..] == table[i + 1..];
      if table[i].0 == name {
        return table[i].1;
      }
    }
    return missing;
  }

  /** `projection_name_to_enum`: the two known names map to their types,
      every other name to the count. */
  method ProjectionNameToEnum(name: string) returns (r: ProjectionType)
    ensures name == "perspective" <==> r == Perspective
    ensures name == "orthographic" <==> r == Orthographic
    ensures name != "perspective" && name != "orthographic" <==> r == ProjectionCount
  {
    r := FindName(ProjectionNames, name, ProjectionCount);
    assert ProjectionNames[1..][1..] == [];
    assert |"perspective"| != |"orthographic"|;
  }

  /** `light_name_to_enum`: the three known names map to their types, every
      other name to the count. */
  method LightNameToEnum(name: string) returns (r: LightType)
    ensures name == "directional" <==> r == Directional
    ensures name == "omni" <==> r == Omni
    ensures name == "spot" <==> r == Spot
    ensures name != "directional" && name != "omni" && name != "spot" <==> r == LightCount
  {
    r := FindName(LightNames, name, LightCount);
    assert LightNames[1..][1..][1..] == [];
    assert |"directional"| != |"omni"| && "omni"[0] != "spot"[0];
  }

  // ---------------------------------------------------------------------
  // Components and prefabs

  /** A component id (the `Guid` struct); only its equality matters here. */
  datatype Guid = Guid(data1: nat, data2: nat, data3: nat, data4: nat)

  /** A component object: its "id", its "type" and its "data" member. */
  datatype Component = Component(id: Guid, ctype: StringId32, data: Json)

  /** One unit file of a prefab chain: the components it adds, the ids of
      the components it deletes and the new "data" of the components it
      modifies (each in the iteration order of its JSON object), and the
      name hash of its "editor" object's "name", if it has one. */
  datatype Prefab = Prefab(
    components: seq<Component>, deleted: seq<Guid>, modified: seq<(Guid, Json)>,
    editorName: Option<StringId32>)

  /** The name hash recorded for a unit: 0 for an unnamed one. */
  function NameOf(p: Prefab): (r: StringId32)
    ensures p.editorName.None? ==> r == 0
  {
    if p.editorName.Some? then p.editorName.value else 0
  }

  /** The two merge arrays, `merged_components` and `merged_components_data`. */
  datatype Merged = Merged(components: seq<Component>, data: seq<Json>)

  datatype MergeError = DeletionOfMissing(id: Guid) | ModificationOfMissing(id: Guid)

  datatype Result<T> = Success(value: T) | Failure(error: MergeError)

  /** The index of the first component with id `id`, or `|cs|` if none. */
  function IndexOf(cs: seq<Component>, id: Guid): (r: nat)
    ensures r <= |cs|
    ensures r < |cs| ==> cs[r].id == id
    ensures forall j | 0 <= j < r :: cs[j].id != id
    decreases |cs|
  {
    if |cs| == 0 then 0
    else if cs[0].id == id then 0
    else 1 + IndexOf(cs[1..], id)
  }

  /** Whether some component of `cs` has id `id`. */
  ghost predicate Holds(cs: seq<Component>, id: Guid)
  {
    exists i | 0 <= i < |cs| :: cs[i].id == id
  }

  /** `component_index`: the first index holding `id`, or UINT32_MAX. The
      array's length is a 32-bit count. */
  method ComponentIndex(components: seq<Component>, id: Guid) returns (r: nat)
    requires |components| < UINT32_MAX
    ensures r == UINT32_MAX <==> !Holds(components, id)
    ensures r != UINT32_MAX ==> r < |components| && components[r].id == id && !Holds(components[..r], id)
    ensures r == if IndexOf(components, id) < |components| then IndexOf(components, id) else UINT32_MAX
  {
    for i := 0 to |components|
      invariant !Holds(components[..i], id)
    {
      if components[i].id == id {
        return i;
      }
    }
    return UINT32_MAX;
  }

  /** The "data" members of `cs`, in order. */
  function DataOf(cs: seq<Component>): (d: seq<Json>)
    ensures |d| == |cs|
  {
    seq(|cs|, k requires 0 <= k < |cs| => cs[k].data)
  }

  /** The merge arrays after a prefab's components are appended. */
  function WithComponents(m: Merged, cs: seq<Component>): (r: Merged)
    ensures |r.components| == |m.components| + |cs|
    ensures |m.components| == |m.data| ==> |r.components| == |r.data|
  {
    Merged(m.components + cs, m.data + DataOf(cs))
  }

  /** The pairs a merge holds: each component with its current data. */
  function Entries(m: Merged): (r: seq<(Component, Json)>)
    requires |m.components| == |m.data|
    ensures |r| == |m.components|
  {
    seq(|m.components|, k requires 0 <= k < |m.components| => (m.components[k], m.data[k]))
  }

  /** Deleting the component at `idx`: the last one is copied over it and
      both arrays are popped. */
  function Removed(m: Merged, idx: nat): (r: Merged)
    requires idx < |m.components| && |m.components| == |m.data|
    ensures |r.components| == |r.data| == |m.components| - 1
  {
    var last := |m.components| - 1;
    Merged(m.components[idx := m.components[last]][..last], m.data[idx := m.data[last]][..last])
  }

  /** Swap-with-last removal drops exactly the pair at `idx`: every other
      component keeps its own data. */
  lemma RemovedDropsOne(m: Merged, idx: nat)
    requires idx < |m.components| && |m.components| == |m.data|
    ensures multiset(Entries(Removed(m, idx))) == multiset(Entries(m)) - multiset{Entries(m)[idx]}
  {
    var p := Entries(m);
    var last := |p| - 1;
    var q := Entries(Removed(m, idx));
    assert p == p[..last] + [p[last]];
    if idx == last {
      assert q == p[..last];
    } else {
      assert q == p[..last][idx := p[last]];
      assert p[..last][idx] == p[idx];
    }
  }

  /** Modifying the component at `idx`: only its data changes. */
  function Patched(m: Merged, idx: nat, d: Json): (r: Merged)
    requires idx < |m.data|
    ensures r.components == m.components && |r.data| == |m.data| && r.data[idx] == d
    ensures forall k | 0 <= k < |m.data| && k != idx :: r.data[k] == m.data[k]
  {
    Merged(m.components, m.data[idx := d])
  }

  /** The deletions of one prefab, in order; deleting an id that is not
      present fails. */
  function DeleteAll(m: Merged, ids: seq<Guid>): (r: Result<Merged>)
    requires |m.components| == |m.data|
    ensures r.Success? ==> |r.value.components| == |r.value.data| <= |m.components|
    ensures r.Success? ==> |r.value.components| + |ids| == |m.components|
    decreases |ids|
  {
    if |ids| == 0 then Success(m)
    else
      var idx := IndexOf(m.components, ids[0]);
      if idx == |m.components| then Failure(DeletionOfMissing(ids[0]))
      else DeleteAll(Removed(m, idx), ids[1..])
  }

  /** The modifications of one prefab, in order; modifying an id that is
      not present fails. */
  function ModifyAll(m: Merged, mods: seq<(Guid, Json)>): (r: Result<Merged>)
    requires |m.components| == |m.data|
    ensures r.Success? ==> r.value.components == m.components && |r.value.data| == |m.data|
    decreases |mods|
  {
    if |mods| == 0 then Success(m)
    else
      var idx := IndexOf(m.components, mods[0].0);
      if idx == |m.components| then Failure(ModificationOfMissing(mods[0].0))
      else ModifyAll(Patched(m, idx, mods[0].1), mods[1..])
  }

  /** One prefab merged in: its components appended, then its deletions,
      then its modifications. */
  function ApplyPrefab(m: Merged, p: Prefab): (r: Result<Merged>)
    requires |m.components| == |m.data|
    ensures r.Success? ==> |r.value.components| == |r.value.data|
    ensures r.Success? ==> |r.value.components| + |p.deleted| == |m.components| + |p.components|
  {
    match DeleteAll(WithComponents(m, p.components), p.deleted)
    case Failure(e) => Failure(e)
    case Success(m') => ModifyAll(m', p.modified)
  }

  /** The merge of the chain, which starts with the unit itself and ends
      with its root: from `m`, the prefabs still to merge after `k` of them
      have been, root first. */
  function MergeFrom(m: Merged, chain: seq<Prefab>, k: nat): (r: Result<Merged>)
    requires k <= |chain| && |m.components| == |m.data|
    ensures r.Success? ==> |r.value.components| == |r.value.data|
    ensures r.Success? ==> |r.value.components| + Pending(chain, k, true) == |m.components| + Pending(chain, k, false)
    decreases |chain| - k
  {
    if k == |chain| then Success(m)
    else
      match ApplyPrefab(m, chain[|chain| - 1 - k])
      case Failure(e) => Failure(e)
      case Success(m') => MergeFrom(m', chain, k + 1)
  }

  /** The merge of a whole chain. */
  function Merge(chain: seq<Prefab>): (r: Result<Merged>)
    ensures r.Success? ==> |r.value.components| == |r.value.data|
  {
    MergeFrom(Merged([], []), chain, 0)
  }

  /** The number of components the prefabs still to merge after `k` of
      them delete (`deletions`) or add (otherwise). */
  function Pending(chain: seq<Prefab>, k: nat, deletions: bool): nat
    requires k <= |chain|
    decreases |chain| - k
  {
    if k == |chain| then 0
    else
      var p := chain[|chain| - 1 - k];
      (if deletions then |p.deleted| else |p.components|) + Pending(chain, k + 1, deletions)
  }

  /** One prefab of the merge, as the loop of `MergePrefabs` takes it. */
  lemma MergeStep(m: Merged, chain: seq<Prefab>, k: nat)
    requires k < |chain| && |m.components| == |m.data|
    ensures Pending(chain, k, false) == |chain[|chain| - 1 - k].components| + Pending(chain, k + 1, false)
    ensures ApplyPrefab(m, chain[|chain| - 1 - k]).Failure? ==>
              MergeFrom(m, chain, k) == Failure(ApplyPrefab(m, chain[|chain| - 1 - k]).error)
    ensures ApplyPrefab(m, chain[|chain| - 1 - k]).Success? ==>
              MergeFrom(m, chain, k) == MergeFrom(ApplyPrefab(m, chain[|chain| - 1 - k]).value, chain, k + 1)
  {
  }

  /** Whether the root of the chain, merged first, merges without error:
      its name is then recorded. */
  predicate RootMerges(chain: seq<Prefab>)
    requires |chain| > 0
  {
    ApplyPrefab(Merged([], []), chain[|chain| - 1]).Success?
  }

  /** A merged chain holds the components its prefabs add less those they
      delete. */
  lemma MergeCount(chain: seq<Prefab>)
    requires Merge(chain).Success?
    ensures |Merge(chain).value.components| == Pending(chain, 0, false) - Pending(chain, 0, true)
  {
  }

  /** The first loop of a merge step: each component of the prefab, and
      its "data", appended. */
  method AddComponents(m: Merged, cs: seq<Component>) returns (r: Merged)
    ensures r == WithComponents(m, cs)
  {
    r := m;
    for cc := 0 to |cs|
      invariant r == Merged(m.components + cs[..cc], m.data + DataOf(cs[..cc]))
    {
      assert cs[..cc + 1] == cs[..cc] + [cs[cc]];
      r := Merged(r.components + [cs[cc]], r.data + [cs[cc].data]);
    }
    assert cs[..|cs|] == cs;
  }

  /** The deletion loop of a merge step: each id looked up and its
      component removed by moving the last one into its place; an id that is
      not present is an error. */
  method DeleteComponents(m: Merged, ids: seq<Guid>) returns (r: Result<Merged>)
    requires |m.components| == |m.data| && |m.components| < UINT32_MAX
    ensures r == DeleteAll(m, ids)
  {
    var comps := m.components;
    var data := m.data;
    for k := 0 to |ids|
      invariant |comps| == |data| <= |m.components|
      invariant DeleteAll(Merged(comps, data), ids[k..]) == DeleteAll(m, ids)
    {
      ghost var cur := Merged(comps, data);
      DeleteStep(cur, ids, k);
      var idx := ComponentIndex(comps, ids[k]);
      if idx == UINT32_MAX {
        return Failure(DeletionOfMissing(ids[k]));
      }
      var last := |comps| - 1;
      comps := comps[idx := comps[last]][..last];
      data := data[idx := data[last]][..last];
      assert Merged(comps, data) == Removed(cur, idx);
    }
    assert ids[|ids|..] == [];
    return Success(Merged(comps, data));
  }

  /** One deletion, as the loop of `DeleteComponents` takes it. */
  lemma DeleteStep(cur: Merged, ids: seq<Guid>, k: nat)
    requires k < |ids| && |cur.components| == |cur.data|
    ensures DeleteAll(cur, ids[k..])
            == if IndexOf(cur.components, ids[k]) == |cur.components| then Failure(DeletionOfMissing(ids[k]))
               else DeleteAll(Removed(cur, IndexOf(cur.components, ids[k])), ids[k + 1..])
  {
    assert ids[k..][0] == ids[k] && ids[k..][1..] == ids[k + 1..];
  }


  /** The modification loop of a merge step: each id looked up and its data
      replaced; an id that is not present is an error. */
  method ModifyComponents(m: Merged, mods: seq<(Guid, Json)>) returns (r: Result<Merged>)
    requires |m.components| == |m.data| && |m.components| < UINT32_MAX
    ensures r == ModifyAll(m, mods)
  {
    var data := m.data;
    for k := 0 to |mods|
      invariant |data| == |m.components|
      invariant ModifyAll(Merged(m.components, data), mods[k..]) == ModifyAll(m, mods)
    {
      ModifyStep(Merged(m.components, data), mods, k);
      var (id, val) := mods[k];
      var idx := ComponentIndex(m.components, id);
      if idx == UINT32_MAX {
        return Failure(ModificationOfMissing(id));
      }
      data := data[idx := val];
    }
    assert mods[|mods|..] == [];
    return Success(Merged(m.components, data));
  }

  /** One modification, as the loop of `ModifyComponents` takes it. */
  lemma ModifyStep(cur: Merged, mods: seq<(Guid, Json)>, k: nat)
    requires k < |mods| && |cur.components| == |cur.data|
    ensures ModifyAll(cur, mods[k..])
            == if IndexOf(cur.components, mods[k].0) == |cur.components| then Failure(ModificationOfMissing(mods[k].0))
               else ModifyAll(Patched(cur, IndexOf(cur.components, mods[k].0), mods[k].1), mods[k + 1..])
  {
    assert mods[k..][0] == mods[k] && mods[k..][1..] == mods[k + 1..];
  }


  /** One iteration of the merge loop: the prefab's components appended,
      then its deletions, then its modifications. */
  method MergePrefab(m: Merged, prefab: Prefab) returns (r: Result<Merged>)
    requires |m.components| == |m.data| && |m.components| + |prefab.components| < UINT32_MAX
    ensures r == ApplyPrefab(m, prefab)
  {
    var added := AddComponents(m, prefab.components);
    var deleted := DeleteComponents(added, prefab.deleted);
    if deleted.Failure? {
      return deleted;
    }
    r := ModifyComponents(deleted.value, prefab.modified);
  }

  // ---------------------------------------------------------------------
  // Per-type component data

  /** `ComponentTypeData` without its compile function: the concatenated
      compiled data of every instance, the unit of each instance, and the
      instance count. */
  datatype ComponentTypeData = ComponentTypeData(data: seq<Byte>, unitIndex: seq<nat>, num: nat)

  /** The map after one instance of type `t`, compiled to `bytes`, is added
      for unit `unit`. */
  function Added(cd: map<StringId32, ComponentTypeData>, t: StringId32, bytes: seq<Byte>, unit: nat)
    : (r: map<StringId32, ComponentTypeData>)
    requires t in cd
    ensures r.Keys == cd.Keys
  {
    cd[t := ComponentTypeData(cd[t].data + bytes, cd[t].unitIndex + [unit], cd[t].num + 1)]
  }

  /** Every type's instance count is the length of its unit list, and every
      instance belongs to a unit numbered at most `n`. */
  ghost predicate Shaped(cd: map<StringId32, ComponentTypeData>, n: nat) {
    forall t | t in cd ::
      cd[t].num == |cd[t].unitIndex| && forall k | 0 <= k < |cd[t].unitIndex| :: cd[t].unitIndex[k] <= n
  }

  /** Adding an instance keeps the shape, adds one instance of `t` with its
      bytes and unit, and leaves the other types alone. */
  lemma AddedShaped(cd: map<StringId32, ComponentTypeData>, t: StringId32, bytes: seq<Byte>, unit: nat, n: nat)
    requires t in cd && Shaped(cd, n) && unit <= n
    ensures Shaped(Added(cd, t, bytes, unit), n)
    ensures Added(cd, t, bytes, unit)[t].num == cd[t].num + 1
    ensures Added(cd, t, bytes, unit)[t].data == cd[t].data + bytes
    ensures Added(cd, t, bytes, unit)[t].unitIndex == cd[t].unitIndex + [unit]
    ensures forall u | u in cd && u != t :: Added(cd, t, bytes, unit)[u] == cd[u]
  {
    var r := Added(cd, t, bytes, unit);
    forall u | u in r
      ensures r[u].num == |r[u].unitIndex| && forall k | 0 <= k < |r[u].unitIndex| :: r[u].unitIndex[k] <= n
    {
      if u == t {
        forall k | 0 <= k < |r[u].unitIndex|
          ensures r[u].unitIndex[k] <= n
        {
          if k < |cd[t].unitIndex| {
            assert r[u].unitIndex[k] == cd[t].unitIndex[k];
          }
        }
      }
    }
  }

  /** What a component compile function gives back: an error code and the
      output buffer. */
  datatype Compiled = Compiled(err: int, output: seq<Byte>)

  /** The compile loop of `compile_unit_from_json` over the merged
      components: each must be of a registered type and compile with error
      code 0, and its output is added for unit `unit`. The first failure
      stops the loop; what was added before it stays. */
  function Accumulate(cd: map<StringId32, ComponentTypeData>, comps: seq<Component>, data: seq<Json>,
                      compile: (StringId32, Json) -> Compiled, unit: nat)
    : (r: (map<StringId32, ComponentTypeData>, bool))
    requires |comps| == |data|
    ensures r.0.Keys == cd.Keys
    decreases |comps|
  {
    if |comps| == 0 then (cd, true)
    else if comps[0].ctype !in cd || compile(comps[0].ctype, data[0]).err != 0 then (cd, false)
    else Accumulate(Added(cd, comps[0].ctype, compile(comps[0].ctype, data[0]).output, unit), comps[1..], data[1..], compile, unit)
  }

  /** The component types of a sequence of components, as a multiset. */
  function Types(comps: seq<Component>): (r: multiset<StringId32>)
    ensures |r| == |comps|
  {
    if |comps| == 0 then multiset{} else multiset{comps[0].ctype} + Types(comps[1..])
  }

  /** The compile loop keeps the shape of the map, and when it succeeds each
      type gains one instance per merged component of that type. */
  lemma {:induction false} AccumulateCounts(cd: map<StringId32, ComponentTypeData>, comps: seq<Component>, data: seq<Json>,
                                            compile: (StringId32, Json) -> Compiled, unit: nat, n: nat)
    requires |comps| == |data| && Shaped(cd, n) && unit <= n
    ensures Shaped(Accumulate(cd, comps, data, compile, unit).0, n)
    ensures Accumulate(cd, comps, data, compile, unit).1 ==>
              forall t | t in cd :: Accumulate(cd, comps, data, compile, unit).0[t].num == cd[t].num + Types(comps)[t]
    decreases |comps|
  {
    if |comps| > 0 && comps[0].ctype in cd && compile(comps[0].ctype, data[0]).err == 0 {
      var t0 := comps[0].ctype;
      var cd' := Added(cd, t0, compile(t0, data[0]).output, unit);
      AddedShaped(cd, t0, compile(t0, data[0]).output, unit, n);
      AccumulateCounts(cd', comps[1..], data[1..], compile, unit, n);
    }
  }

  // ---------------------------------------------------------------------
  // The compiled blob

  /** An item of the blob buffer: the two header structs written whole, a
      32-bit word in machine byte order (four bytes), or one byte. */
  datatype Item =
    | UnitHeader(numUnits: nat, numComponentTypes: nat)
    | ComponentHeader(ctype: StringId32, numInstances: nat, size: nat)
    | Word(w: nat)
    | Octet(b: Byte)

  /** The number of bytes a run of word and byte items takes. */
  function ByteSize(items: seq<Item>): nat
    decreases |items|
  {
    if |items| == 0 then 0 else ByteSize(items[..|items| - 1]) + ItemSize(items[|items| - 1])
  }

  /** The bytes one item of a run takes: a word four, a byte one. */
  function ItemSize(x: Item): nat {
    if x.Word? then 4 else if x.Octet? then 1 else 0
  }

  lemma {:induction false} ByteSizeAppend(a: seq<Item>, b: seq<Item>)
    ensures ByteSize(a + b) == ByteSize(a) + ByteSize(b)
    decreases |b|
  {
    if |b| == 0 {
      assert a + b == a;
    } else {
      assert (a + b)[..|a + b| - 1] == a + b[..|b| - 1];
      ByteSizeAppend(a, b[..|b| - 1]);
    }
  }

  /** The padding `blob` computes, `size % alignof(ComponentData)`. */
  function PadAsWritten(size: nat): nat {
    size % ALIGN
  }

  /** The padding that brings `size` up to the next multiple of the
      alignment. */
  function Pad(size: nat): (pad: nat)
    ensures pad < ALIGN && (size + pad) % ALIGN == 0
    ensures size % ALIGN == 0 ==> pad == 0
  {
    (ALIGN - size % ALIGN) % ALIGN
  }

  /** The words holding the unit indices. */
  function Words(ws: seq<nat>): (r: seq<Item>)
    ensures |r| == |ws|
    decreases |ws|
  {
    if |ws| == 0 then [] else Words(ws[..|ws| - 1]) + [Word(ws[|ws| - 1])]
  }

  /** The bytes of a buffer. */
  function Bytes(bs: seq<Byte>): (r: seq<Item>)
    ensures |r| == |bs|
    decreases |bs|
  {
    if |bs| == 0 then [] else Bytes(bs[..|bs| - 1]) + [Octet(bs[|bs| - 1])]
  }

  /** `n` zero bytes. */
  function Zeros(n: nat): (r: seq<Item>)
    ensures |r| == n
  {
    if n == 0 then [] else Zeros(n - 1) + [Octet(0)]
  }

  lemma {:induction false} WordsSize(ws: seq<nat>)
    ensures ByteSize(Words(ws)) == 4 * |ws|
    decreases |ws|
  {
    if |ws| > 0 {
      var r := Words(ws);
      assert r[..|r| - 1] == Words(ws[..|ws| - 1]);
      WordsSize(ws[..|ws| - 1]);
    }
  }

  lemma {:induction false} BytesSize(bs: seq<Byte>)
    ensures ByteSize(Bytes(bs)) == |bs|
    decreases |bs|
  {
    if |bs| > 0 {
      var r := Bytes(bs);
      assert r[..|r| - 1] == Bytes(bs[..|bs| - 1]);
      BytesSize(bs[..|bs| - 1]);
    }
  }

  lemma {:induction false} ZerosSize(n: nat)
    ensures ByteSize(Zeros(n)) == n
  {
    if n > 0 {
      var r := Zeros(n);
      assert r[..|r| - 1] == Zeros(n - 1);
      ZerosSize(n - 1);
    }
  }

  /** The bytes of one component type's unit indices and data, unpadded. */
  function RawSize(ctd: ComponentTypeData): nat {
    |ctd.data| + 4 * |ctd.unitIndex|
  }

  /** The payload of one component type: its unit indices, its data and
      the padding that `pad` computes from their size. */
  function Payload(ctd: ComponentTypeData, pad: nat -> nat): seq<Item> {
    Words(ctd.unitIndex) + Bytes(ctd.data) + Zeros(pad(RawSize(ctd)))
  }

  /** The part of the blob for one component type: nothing for a type with
      no instances, otherwise its header and its payload. */
  function Section(t: StringId32, ctd: ComponentTypeData, pad: nat -> nat): seq<Item> {
    if ctd.num > 0 then [ComponentHeader(t, ctd.num, RawSize(ctd) + pad(RawSize(ctd)))] + Payload(ctd, pad)
    else []
  }

  /** The data of a type as `blob` looks it up: absent types have none. */
  function DataFor(cd: map<StringId32, ComponentTypeData>, t: StringId32): ComponentTypeData {
    if t in cd then cd[t] else ComponentTypeData([], [], 0)
  }

  /** The sections of the given types, in order. */
  function Sections(types: seq<StringId32>, cd: map<StringId32, ComponentTypeData>, pad: nat -> nat): seq<Item>
    decreases |types|
  {
    if |types| == 0 then []
    else Sections(types[..|types| - 1], cd, pad) + Section(types[|types| - 1], DataFor(cd, types[|types| - 1]), pad)
  }

  /** Whatever the padding, a section's header records the byte size of
      the payload that follows it. */
  lemma SectionSizeRecorded(t: StringId32, ctd: ComponentTypeData, pad: nat -> nat)
    requires ctd.num > 0
    ensures Section(t, ctd, pad)[0].ComponentHeader?
    ensures Section(t, ctd, pad)[0].size == ByteSize(Section(t, ctd, pad)[1..])
  {
    var s := Section(t, ctd, pad);
    assert s[1..] == Payload(ctd, pad);
    PayloadSize(ctd, pad);
  }

  /** With the corrected padding, the recorded size is a multiple of the
      alignment, so the next header starts aligned. */
  lemma SectionSizeAligned(t: StringId32, ctd: ComponentTypeData)
    requires ctd.num > 0
    ensures Section(t, ctd, Pad)[0].size == ByteSize(Section(t, ctd, Pad)[1..])
    ensures Section(t, ctd, Pad)[0].size % ALIGN == 0
  {
    SectionSizeRecorded(t, ctd, Pad);
  }

  /** With the padding as written, a section holding one instance with one
      byte of data records a size of 6, which is not a multiple of the
      alignment. */
  lemma SectionAsWrittenMisaligned(t: StringId32)
    ensures Section(t, ComponentTypeData([0], [0], 1), PadAsWritten)[0].size == 6
    ensures Section(t, ComponentTypeData([0], [0], 1), PadAsWritten)[0].size % ALIGN != 0
  {
  }

  /** The byte size of a payload is its raw size plus its padding. */
  lemma PayloadSize(ctd: ComponentTypeData, pad: nat -> nat)
    ensures ByteSize(Payload(ctd, pad)) == RawSize(ctd) + pad(RawSize(ctd))
  {
    WordsSize(ctd.unitIndex);
    BytesSize(ctd.data);
    ZerosSize(pad(RawSize(ctd)));
    ByteSizeAppend(Words(ctd.unitIndex), Bytes(ctd.data));
    ByteSizeAppend(Words(ctd.unitIndex) + Bytes(ctd.data), Zeros(pad(RawSize(ctd))));
  }

  /** The types with at least one instance. */
  ghost function NonEmpty(cd: map<StringId32, ComponentTypeData>): set<StringId32> {
    set t | t in cd && cd[t].num > 0
  }

  /** The number of sections the given types produce. */
  function SectionCount(types: seq<StringId32>, cd: map<StringId32, ComponentTypeData>): nat
    decreases |types|
  {
    if |types| == 0 then 0
    else SectionCount(types[..|types| - 1], cd) + (if DataFor(cd, types[|types| - 1]).num > 0 then 1 else 0)
  }

  /** The types a list names. */
  function Listed(types: seq<StringId32>): set<StringId32> {
    set t | t in types
  }

  /** No type is listed twice. */
  ghost predicate Distinct(types: seq<StringId32>) {
    forall i, j | 0 <= i < j < |types| :: types[i] != types[j]
  }

  /** When each type is listed once, the sections are as many as the listed
      types with instances. */
  lemma {:induction false} SectionCountMatches(types: seq<StringId32>, cd: map<StringId32, ComponentTypeData>)
    requires Distinct(types)
    ensures SectionCount(types, cd) == |NonEmpty(cd) * Listed(types)|
    decreases |types|
  {
    if |types| > 0 {
      var init := types[..|types| - 1];
      var last := types[|types| - 1];
      ListedSnoc(types);
      SectionCountMatches(init, cd);
      NonEmptyWith(cd, Listed(init), last);
    }
  }

  /** A list's last type is new to the rest, which is itself distinct. */
  lemma ListedSnoc(types: seq<StringId32>)
    requires |types| > 0 && Distinct(types)
    ensures Listed(types) == Listed(types[..|types| - 1]) + {types[|types| - 1]}
    ensures types[|types| - 1] !in Listed(types[..|types| - 1])
    ensures Distinct(types[..|types| - 1])
  {
    assert types == types[..|types| - 1] + [types[|types| - 1]];
  }

  /** Adding a type not yet listed adds one to the count of listed types
      with instances exactly when it has instances. */
  lemma NonEmptyWith(cd: map<StringId32, ComponentTypeData>, listed: set<StringId32>, t: StringId32)
    requires t !in listed
    ensures |NonEmpty(cd) * (listed + {t})| == |NonEmpty(cd) * listed| + if DataFor(cd, t).num > 0 then 1 else 0
  {
    if DataFor(cd, t).num > 0 {
      assert NonEmpty(cd) * (listed + {t}) == NonEmpty(cd) * listed + {t};
    } else {
      assert NonEmpty(cd) * (listed + {t}) == NonEmpty(cd) * listed;
    }
  }

  /** When the types listed are exactly the registered ones, each once, the
      blob has as many sections as its header announces types. */
  lemma HeaderCount(types: seq<StringId32>, cd: map<StringId32, ComponentTypeData>)
    requires Distinct(types) && cd.Keys == Listed(types)
    ensures SectionCount(types, cd) == |NonEmpty(cd)|
  {
    SectionCountMatches(types, cd);
    assert NonEmpty(cd) * Listed(types) == NonEmpty(cd);
  }

  /** The first loop of `blob`: the number of component types with
      instances, counted over the map in any order. */
  method CountNonEmpty(cd: map<StringId32, ComponentTypeData>) returns (count: nat)
    ensures count == |NonEmpty(cd)|
  {
    count := 0;
    var rest := cd.Keys;
    assert NonEmpty(cd) * rest == NonEmpty(cd);
    while rest != {}
      invariant rest <= cd.Keys
      invariant count + |NonEmpty(cd) * rest| == |NonEmpty(cd)|
      decreases |rest|
    {
      var t :| t in rest;
      if cd[t].num > 0 {
        assert NonEmpty(cd) * rest == NonEmpty(cd) * (rest - {t}) + {t};
        count := count + 1;
      } else {
        assert NonEmpty(cd) * rest == NonEmpty(cd) * (rest - {t});
      }
      rest := rest - {t};
    }
  }

  // ---------------------------------------------------------------------
  // The compiler object

  /** The unit compiler's state: the number of units compiled, the data of
      every registered component type, the registered types in spawn order,
      and the name hash of each unit. */
  class UnitCompiler {
    var numUnits: nat
    var componentData: map<StringId32, ComponentTypeData>
    var componentInfo: seq<StringId32>
    var unitNames: seq<StringId32>

    /** Each registered type is listed once in `componentInfo`, and the
        per-type data is shaped. */
    ghost predicate Valid()
      reads this
    {
      && Distinct(componentInfo)
      && componentData.Keys == Listed(componentInfo)
      && Shaped(componentData, numUnits)
    }

    /** The constructor registers the component types, in spawn order, each
        with no data. */
    constructor(types: seq<StringId32>)
      requires Distinct(types)
      ensures Valid()
      ensures numUnits == 0 && unitNames == [] && componentInfo == types
      ensures forall t | t in componentData :: componentData[t] == ComponentTypeData([], [], 0)
    {
      numUnits := 0;
      componentInfo := types;
      componentData := map t | t in Listed(types) :: ComponentTypeData([], [], 0);
      unitNames := [];
    }

    /** `add_component_data`: append the compiled bytes and the unit to the
        type's data and count one more instance. */
    method AddComponentData(ctype: StringId32, data: seq<Byte>, unitIndex: nat)
      requires ctype in componentData
      modifies this
      ensures componentData == Added(old(componentData), ctype, data, unitIndex)
      ensures numUnits == old(numUnits) && componentInfo == old(componentInfo) && unitNames == old(unitNames)
    {
      var ctd := componentData[ctype];
      componentData := componentData[ctype := ComponentTypeData(ctd.data + data, ctd.unitIndex + [unitIndex], ctd.num + 1)];
    }

    /** The merge loop of `compile_unit_from_json`: the prefabs of the
        chain (the unit first, its root last) merged root first, and the
        name of the root recorded once it has been merged. */
    method MergePrefabs(chain: seq<Prefab>) returns (r: Result<Merged>)
      requires |chain| > 0 && Pending(chain, 0, false) < UINT32_MAX
      modifies this`unitNames
      ensures r == Merge(chain)
      ensures unitNames == old(unitNames) + if RootMerges(chain) then [NameOf(chain[|chain| - 1])] else []
    {
      var n := |chain|;
      var m := Merged([], []);
      for ii := 0 to n
        invariant |m.components| == |m.data|
        invariant MergeFrom(m, chain, ii) == Merge(chain)
        invariant |m.components| + Pending(chain, ii, false) < UINT32_MAX
        invariant unitNames == old(unitNames) + if ii == 0 then [] else [NameOf(chain[n - 1])]
        invariant ii == 0 ==> m == Merged([], [])
        invariant ii > 0 ==> RootMerges(chain)
      {
        var prefab := chain[n - 1 - ii];
        MergeStep(m, chain, ii);
        var merged := MergePrefab(m, prefab);
        if merged.Failure? {
          return merged;
        }
        m := merged.value;
        if ii == 0 {
          unitNames := unitNames + [NameOf(prefab)];
        }
      }
      return Success(m);
    }

    /** The compile loop of `compile_unit_from_json`: every merged
        component compiled and its output added for the current unit; the
        first failure ends the loop. */
    method CompileComponents(m: Merged, compile: (StringId32, Json) -> Compiled) returns (ok: bool)
      requires |m.components| == |m.data|
      modifies this
      ensures componentData == Accumulate(old(componentData), m.components, m.data, compile, numUnits).0
      ensures ok == Accumulate(old(componentData), m.components, m.data, compile, numUnits).1
      ensures numUnits == old(numUnits) && componentInfo == old(componentInfo) && unitNames == old(unitNames)
    {
      ghost var cd0 := componentData;
      for cc := 0 to |m.components|
        invariant Accumulate(componentData, m.components[cc..], m.data[cc..], compile, numUnits)
                  == Accumulate(cd0, m.components, m.data, compile, numUnits)
        invariant numUnits == old(numUnits) && componentInfo == old(componentInfo) && unitNames == old(unitNames)
      {
        var c := m.components[cc];
        assert m.components[cc..][0] == c && m.components[cc..][1..] == m.components[cc + 1..];
        assert m.data[cc..][0] == m.data[cc] && m.data[cc..][1..] == m.data[cc + 1..];
        // compile_component: the type must be registered, the compile must succeed
        if c.ctype !in componentData {
          return false;
        }
        var out := compile(c.ctype, m.data[cc]);
        if out.err != 0 {
          return false;
        }
        AddComponentData(c.ctype, out.output, numUnits);
      }
      assert m.components[|m.components|..] == [] && m.data[|m.data|..] == [];
      return true;
    }

    /** `compile_unit_from_json` on the prefab chain collected for a unit
        (the unit first, its root prefab last), with `compile` standing for
        the registered compile functions. The chain's component counts are
        32-bit. */
    method CompileUnitFromJson(chain: seq<Prefab>, compile: (StringId32, Json) -> Compiled) returns (err: int)
      requires Valid() && |chain| > 0 && Pending(chain, 0, false) < UINT32_MAX
      modifies this
      ensures Valid() && componentInfo == old(componentInfo)
      ensures err == 0 || err == -1
      ensures unitNames == old(unitNames) + if RootMerges(chain) then [NameOf(chain[|chain| - 1])] else []
      ensures Merge(chain).Failure? ==>
                err == -1 && numUnits == old(numUnits) && componentData == old(componentData)
      ensures Merge(chain).Success? ==>
                var m := Merge(chain).value;
                var acc := Accumulate(old(componentData), m.components, m.data, compile, old(numUnits));
                && componentData == acc.0
                && (err == 0 <==> acc.1)
                && numUnits == old(numUnits) + (if acc.1 then 1 else 0)
    {
      var merged := MergePrefabs(chain);
      if merged.Failure? {
        return -1;
      }
      var m := merged.value;
      AccumulateCounts(componentData, m.components, m.data, compile, numUnits, numUnits);
      var ok := true;
      if |m.components| > 0 {
        ok := CompileComponents(m, compile);
      }
      if !ok {
        return -1;
      }
      numUnits := numUnits + 1;
      return 0;
    }

    /** `blob`: the unit header, which counts the types with instances, then
        one section per such type in spawn order, each padded by `pad`. */
    method Blob(pad: nat -> nat) returns (buf: seq<Item>)
      requires Valid()
      ensures buf == [UnitHeader(numUnits, |NonEmpty(componentData)|)] + Sections(componentInfo, componentData, pad)
      ensures buf[0].numComponentTypes == SectionCount(componentInfo, componentData)
    {
      HeaderCount(componentInfo, componentData);
      var count := CountNonEmpty(componentData);
      var sections := WriteSections(componentInfo, componentData, pad);
      buf := [UnitHeader(numUnits, count)] + sections;
    }
  }

  /** The per-type loop of `blob`: the sections of the listed types, in
      order. */
  method WriteSections(types: seq<StringId32>, cd: map<StringId32, ComponentTypeData>, pad: nat -> nat)
    returns (sections: seq<Item>)
    ensures sections == Sections(types, cd, pad)
  {
    sections := [];
    for i := 0 to |types|
      invariant sections == Sections(types[..i], cd, pad)
    {
      var t := types[i];
      var section := WriteSection(t, DataFor(cd, t), pad);
      assert types[..i + 1][..i] == types[..i];
      sections := sections + section;
    }
    assert types[..|types|] == types;
  }

  /** The body of the per-type loop of `blob`: a type with instances gets
      its header, its unit indices, its data and the padding `pad` computes. */
  method WriteSection(t: StringId32, ctd: ComponentTypeData, pad: nat -> nat) returns (section: seq<Item>)
    ensures section == Section(t, ctd, pad)
  {
    section := [];
    if ctd.num > 0 {
      var size := |ctd.data| + 4 * |ctd.unitIndex|;
      assert size == RawSize(ctd);
      var padding := pad(size);
      var payload := [];
      for k := 0 to |ctd.unitIndex|
        invariant payload == Words(ctd.unitIndex[..k])
      {
        assert ctd.unitIndex[..k + 1][..k] == ctd.unitIndex[..k];
        payload := payload + [Word(ctd.unitIndex[k])];
      }
      assert ctd.unitIndex[..|ctd.unitIndex|] == ctd.unitIndex;
      for k := 0 to |ctd.data|
        invariant payload == Words(ctd.unitIndex) + Bytes(ctd.data[..k])
      {
        assert ctd.data[..k + 1][..k] == ctd.data[..k];
        payload := payload + [Octet(ctd.data[k])];
      }
      assert ctd.data[..|ctd.data|] == ctd.data;
      // zero bytes up to the padded size
      for k := 0 to padding
        invariant payload == Words(ctd.unitIndex) + Bytes(ctd.data) + Zeros(k)
      {
        payload := payload + [Octet(0)];
      }
      section := [ComponentHeader(t, ctd.num, size + padding)] + payload;
    }
  }
}
