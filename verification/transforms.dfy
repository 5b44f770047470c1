/** load_glb_transformations, vec_to_glm_mat4x4 and get_node_transform: the
    node tree of the scene is walked depth first with an explicit stack from
    the scene's first root; each stack entry carries parent × local, and a
    node that owns a mesh stamps its matrix on that mesh's record. */
module Transforms {
  import opened Util
  import opened Matrix
  import Gltf
  import opened Models

  /** The matrix a glTF `matrix` array denotes: identity when empty,
      otherwise column-major (entry 4k + j is column k, row j). */
  function MatrixOf(v: seq<real>): Mat4
    requires |v| == 0 || |v| == 16
  {
    if |v| == 0 then Identity
    else Mat4(Vec4(v[0], v[1], v[2], v[3]), Vec4(v[4], v[5], v[6], v[7]),
              Vec4(v[8], v[9], v[10], v[11]), Vec4(v[12], v[13], v[14], v[15]))
  }

  /** vec_to_glm_mat4x4: fill the matrix entry by entry, `res[k][j] = mat[4k + j]`
      (glm indexes a matrix by column first). */
  method VecToMat4x4(mat: seq<real>) returns (res: Mat4)
    requires |mat| == 0 || |mat| == 16
    ensures |mat| == 0 ==> res == Identity
    ensures |mat| == 16 ==> forall k, j :: 0 <= k < 4 && 0 <= j < 4 ==> res.At(k, j) == mat[4 * k + j]
    ensures res == MatrixOf(mat)
  {
    if |mat| == 0 {
      return Identity;
    }
    res := Identity;  // every entry is overwritten below
    for k := 0 to 4
      invariant forall k', j :: 0 <= k' < k && 0 <= j < 4 ==> res.At(k', j) == mat[4 * k' + j]
    {
      for j := 0 to 4
        invariant forall k', j' :: 0 <= k' < k && 0 <= j' < 4 ==> res.At(k', j') == mat[4 * k' + j']
        invariant forall j' :: 0 <= j' < j ==> res.At(k, j') == mat[4 * k + j']
      {
        res := res.Set(k, j, mat[4 * k + j]);
      }
    }
    Extensionality(res, MatrixOf(mat));
  }

  /** The translation of a node: zero unless it has exactly 3 entries. */
  function TranslationOf(n: Gltf.Node): Mat4 {
    if |n.translation| == 3 then Translation(n.translation[0], n.translation[1], n.translation[2])
    else Translation(0.0, 0.0, 0.0)
  }

  /** The rotation of a node: the array is (x, y, z, w); the identity
      unless it has exactly 4 entries. */
  function RotationOf(n: Gltf.Node): Quat {
    if |n.rotation| == 4 then Quat(n.rotation[3], n.rotation[0], n.rotation[1], n.rotation[2])
    else IdentityQuat
  }

  /** The scale of a node: unit unless it has exactly 3 entries. */
  function ScaleOf(n: Gltf.Node): Mat4 {
    if |n.scale| == 3 then Scaling(n.scale[0], n.scale[1], n.scale[2])
    else Scaling(1.0, 1.0, 1.0)
  }

  /** get_node_transform: the explicit matrix when there is one, otherwise
      translation × rotation × scale. */
  function NodeTransform(n: Gltf.Node): Mat4
    requires |n.matrix| == 0 || |n.matrix| == 16
  {
    if |n.matrix| != 0 then MatrixOf(n.matrix)
    else Mul(Mul(TranslationOf(n), QuatToMat(RotationOf(n))), ScaleOf(n))
  }

  /** An explicit matrix takes precedence over any TRS arrays. */
  lemma ExplicitMatrixWins(n: Gltf.Node, t: seq<real>, r: seq<real>, s: seq<real>)
    requires |n.matrix| == 16
    ensures NodeTransform(n.(translation := t, rotation := r, scale := s)) == NodeTransform(n) == MatrixOf(n.matrix)
  {
  }

  /** A missing scale behaves exactly like scale [1, 1, 1], a missing
      rotation like the identity quaternion (x, y, z, w) = (0, 0, 0, 1), a
      missing translation like [0, 0, 0]. */
  lemma MissingComponentsDefault(n: Gltf.Node)
    requires n.matrix == []
    ensures NodeTransform(n.(scale := [])) == NodeTransform(n.(scale := [1.0, 1.0, 1.0]))
    ensures NodeTransform(n.(rotation := [])) == NodeTransform(n.(rotation := [0.0, 0.0, 0.0, 1.0]))
    ensures NodeTransform(n.(translation := [])) == NodeTransform(n.(translation := [0.0, 0.0, 0.0]))
  {
    var s1, s2 := n.(scale := []), n.(scale := [1.0, 1.0, 1.0]);
    assert ScaleOf(s1) == ScaleOf(s2);
    assert TranslationOf(s1) == TranslationOf(s2) && RotationOf(s1) == RotationOf(s2);
    var r1, r2 := n.(rotation := []), n.(rotation := [0.0, 0.0, 0.0, 1.0]);
    assert RotationOf(r1) == RotationOf(r2);
    assert TranslationOf(r1) == TranslationOf(r2) && ScaleOf(r1) == ScaleOf(r2);
    var t1, t2 := n.(translation := []), n.(translation := [0.0, 0.0, 0.0]);
    assert TranslationOf(t1) == TranslationOf(t2);
    assert RotationOf(t1) == RotationOf(t2) && ScaleOf(t1) == ScaleOf(t2);
  }

  /** A node with no transform data has the identity as local transform. */
  lemma NoTransformIsIdentity(n: Gltf.Node)
    requires n.matrix == [] && n.translation == [] && n.rotation == [] && n.scale == []
    ensures NodeTransform(n) == Identity
  {
    assert TranslationOf(n) == Identity;
    assert ScaleOf(n) == Scaling(1.0, 1.0, 1.0);
    UnitScalingIsIdentity();
    assert RotationOf(n) == IdentityQuat;
    IdentityQuatIsIdentity();
    MulIdentityLeft(Identity);
  }

  /** A node with only a translation is that pure translation. */
  lemma TranslationOnly(n: Gltf.Node, x: real, y: real, z: real)
    requires n.matrix == [] && n.translation == [x, y, z] && n.rotation == [] && n.scale == []
    ensures NodeTransform(n) == Translation(x, y, z)
  {
    IdentityQuatIsIdentity();
    UnitScalingIsIdentity();
    MulIdentityRight(Translation(x, y, z));
  }

  /** A stack entry: a node and its composed matrix. */
  datatype Entry = Entry(node: Gltf.Node, matrix: Mat4)

  /** What the walk reads: the document's nodes, how a node's local
      transform is computed (get_node_transform), and the number of mesh
      records. */
  datatype Hierarchy = Hierarchy(nodes: seq<Gltf.Node>, local: Gltf.Node --> Mat4, meshCount: nat)

  predicate MeshRef(n: Gltf.Node, meshCount: nat) {
    n.mesh == -1 || 0 <= n.mesh < meshCount
  }

  /** What the walk demands of the tree below `n`: the subtree is acyclic
      with height below h, every child index is in range, the local
      transform is defined on every node and every mesh index is -1 or a
      valid record index. */
  ghost predicate Walkable(t: Hierarchy, n: Gltf.Node, h: nat)
    decreases h
  {
    h > 0 && t.local.requires(n) && MeshRef(n, t.meshCount) &&
    forall i :: 0 <= i < |n.children| ==>
      0 <= n.children[i] < |t.nodes| && Walkable(t, t.nodes[n.children[i]], h - 1)
  }

  ghost predicate ChildrenWalkable(t: Hierarchy, cs: seq<int>, h: nat) {
    forall i :: 0 <= i < |cs| ==> 0 <= cs[i] < |t.nodes| && Walkable(t, t.nodes[cs[i]], h)
  }

  /** The order in which the stack walk pops entries, starting from an
      entry (n, M): n itself, then the subtrees of its children, the last
      child first (it was pushed last). */
  function Trace(t: Hierarchy, n: Gltf.Node, M: Mat4, h: nat): seq<Entry>
    requires Walkable(t, n, h)
    decreases h, 0
  {
    [Entry(n, M)] + ChildTraces(t, n.children, M, h - 1)
  }

  /** The traces of children pushed in order onto the stack, on top of a
      parent matrix M: each child's matrix is M × its local transform, and
      the last child is popped first. */
  function ChildTraces(t: Hierarchy, cs: seq<int>, M: Mat4, h: nat): seq<Entry>
    requires ChildrenWalkable(t, cs, h)
    decreases h, 1, |cs|
  {
    if cs == [] then []
    else
      var child := t.nodes[cs[|cs| - 1]];
      Trace(t, child, Mul(M, t.local(child)), h) + ChildTraces(t, cs[..|cs| - 1], M, h)
  }

  predicate MeshRefs(es: seq<Entry>, meshCount: nat) {
    forall k :: 0 <= k < |es| ==> MeshRef(es[k].node, meshCount)
  }

  lemma MeshRefsConcat(a: seq<Entry>, b: seq<Entry>, meshCount: nat)
    requires MeshRefs(a, meshCount) && MeshRefs(b, meshCount)
    ensures MeshRefs(a + b, meshCount)
  {
    forall k | 0 <= k < |a + b| ensures MeshRef((a + b)[k].node, meshCount) {
      if k < |a| { assert (a + b)[k] == a[k]; } else { assert (a + b)[k] == b[k - |a|]; }
    }
  }

  /** Every node the walk reaches names a valid mesh record or none. */
  lemma {:induction false} TraceMeshRefs(t: Hierarchy, n: Gltf.Node, M: Mat4, h: nat)
    requires Walkable(t, n, h)
    ensures MeshRefs(Trace(t, n, M, h), t.meshCount)
    decreases h, 0
  {
    ChildTracesMeshRefs(t, n.children, M, h - 1);
    MeshRefsConcat([Entry(n, M)], ChildTraces(t, n.children, M, h - 1), t.meshCount);
  }

  lemma {:induction false} ChildTracesMeshRefs(t: Hierarchy, cs: seq<int>, M: Mat4, h: nat)
    requires ChildrenWalkable(t, cs, h)
    ensures MeshRefs(ChildTraces(t, cs, M, h), t.meshCount)
    decreases h, 1, |cs|
  {
    if cs != [] {
      var child := t.nodes[cs[|cs| - 1]];
      TraceMeshRefs(t, child, Mul(M, t.local(child)), h);
      ChildTracesMeshRefs(t, cs[..|cs| - 1], M, h);
      MeshRefsConcat(Trace(t, child, Mul(M, t.local(child)), h), ChildTraces(t, cs[..|cs| - 1], M, h), t.meshCount);
    }
  }

  /** One pop: a mesh-owning node writes its matrix on its mesh's record. */
  function Stamp(ps: seq<Primitive>, e: Entry): seq<Primitive>
    requires MeshRef(e.node, |ps|)
  {
    if e.node.mesh != -1 then ps[e.node.mesh := ps[e.node.mesh].(modelMatrix := e.matrix)] else ps
  }

  /** The records after the entries `es` have been popped in order. */
  function Apply(ps: seq<Primitive>, es: seq<Entry>): (r: seq<Primitive>)
    requires MeshRefs(es, |ps|)
    ensures |r| == |ps|
  {
    if es == [] then ps else Stamp(Apply(ps, es[..|es| - 1]), es[|es| - 1])
  }

  /** The hierarchy of a document as load_glb_transformations walks it. */
  function HierarchyOf(doc: Gltf.Document, meshCount: nat): Hierarchy {
    Hierarchy(doc.nodes, NodeTransform, meshCount)
  }

  /** Everything load_glb_transformations relies on: one scene with a root
      in range whose tree is walkable. */
  ghost predicate TransformsReady(doc: Gltf.Document, meshCount: nat) {
    |doc.scenes| == 1 && |doc.scenes[0].nodes| > 0 &&
    0 <= doc.scenes[0].nodes[0] < |doc.nodes| &&
    Walkable(HierarchyOf(doc, meshCount), doc.nodes[doc.scenes[0].nodes[0]], |doc.nodes|)
  }

  function Root(doc: Gltf.Document, meshCount: nat): (root: Gltf.Node)
    requires TransformsReady(doc, meshCount)
    ensures |root.matrix| == 0 || |root.matrix| == 16
  {
    doc.nodes[doc.scenes[0].nodes[0]]
  }

  /** The whole walk: seeded with the root and the matrix of its own
      `matrix` array only (its TRS arrays are not consulted). */
  function WalkTrace(doc: Gltf.Document, meshCount: nat): seq<Entry>
    requires TransformsReady(doc, meshCount)
  {
    var root := Root(doc, meshCount);
    Trace(HierarchyOf(doc, meshCount), root, MatrixOf(root.matrix), |doc.nodes|)
  }

  /** The model after load_glb_transformations. */
  function Transformed(m: Model, doc: Gltf.Document): Model
    requires TransformsReady(doc, |m.meshes|)
  {
    var root := Root(doc, |m.meshes|);
    TraceMeshRefs(HierarchyOf(doc, |m.meshes|), root, MatrixOf(root.matrix), |doc.nodes|);
    m.(meshes := Apply(m.meshes, WalkTrace(doc, |m.meshes|)))
  }

  ghost predicate StackWalkable(t: Hierarchy, stk: seq<Entry>, heights: seq<nat>) {
    |heights| == |stk| &&
    forall k :: 0 <= k < |stk| ==> Walkable(t, stk[k].node, heights[k])
  }

  /** The entries still to be popped, top of the stack first. */
  function Pending(t: Hierarchy, stk: seq<Entry>, heights: seq<nat>): seq<Entry>
    requires StackWalkable(t, stk, heights)
  {
    if stk == [] then []
    else Trace(t, stk[|stk| - 1].node, stk[|stk| - 1].matrix, heights[|stk| - 1]) +
         Pending(t, stk[..|stk| - 1], heights[..|stk| - 1])
  }

  /** Pushing an entry puts its trace in front of what was pending. */
  lemma PendingPush(t: Hierarchy, stk: seq<Entry>, heights: seq<nat>, e: Entry, h: nat)
    requires StackWalkable(t, stk, heights)
    requires Walkable(t, e.node, h)
    ensures StackWalkable(t, stk + [e], heights + [h])
    ensures Pending(t, stk + [e], heights + [h]) == Trace(t, e.node, e.matrix, h) + Pending(t, stk, heights)
  {
    assert (stk + [e])[..|stk|] == stk;
    assert (heights + [h])[..|heights|] == heights;
  }

  lemma ConcatAssoc<T>(a: seq<T>, b: seq<T>, c: seq<T>)
    ensures a + (b + c) == (a + b) + c
  {
  }

  /** Pushing child j of a parent with matrix M extends the pending
      entries by that child's trace, at the front. */
  lemma PushChild(t: Hierarchy, stk: seq<Entry>, heights: seq<nat>, cs: seq<int>, j: nat,
                  M: Mat4, h: nat, below: seq<Entry>, child: Gltf.Node, L: Mat4)
    requires StackWalkable(t, stk, heights)
    requires j < |cs| && ChildrenWalkable(t, cs, h)
    requires child == t.nodes[cs[j]] && t.local.requires(child) && L == t.local(child)
    requires Pending(t, stk, heights) == ChildTraces(t, cs[..j], M, h) + below
    ensures StackWalkable(t, stk + [Entry(child, Mul(M, L))], heights + [h])
    ensures Pending(t, stk + [Entry(child, Mul(M, L))], heights + [h]) == ChildTraces(t, cs[..j + 1], M, h) + below
  {
    var e := Entry(child, Mul(M, L));
    PendingPush(t, stk, heights, e, h);
    assert cs[..j + 1][..j] == cs[..j];
    var next := Trace(t, child, e.matrix, h);
    var done := ChildTraces(t, cs[..j], M, h);
    assert ChildTraces(t, cs[..j + 1], M, h) == next + done;
    ConcatAssoc(next, done, below);
  }

  /** Popping the top entry: it is the next visited entry, and its
      children's traces come before what lay below it. */
  lemma PopEntry(t: Hierarchy, stk: seq<Entry>, heights: seq<nat>)
    requires StackWalkable(t, stk, heights) && |stk| > 0
    ensures heights[|stk| - 1] > 0
    ensures ChildrenWalkable(t, stk[|stk| - 1].node.children, heights[|stk| - 1] - 1)
    ensures StackWalkable(t, stk[..|stk| - 1], heights[..|stk| - 1])
    ensures Pending(t, stk, heights) ==
            [stk[|stk| - 1]] +
            (ChildTraces(t, stk[|stk| - 1].node.children, stk[|stk| - 1].matrix, heights[|stk| - 1] - 1) +
             Pending(t, stk[..|stk| - 1], heights[..|stk| - 1]))
  {
    assert Walkable(t, stk[|stk| - 1].node, heights[|stk| - 1]);
  }

  lemma ApplyStep(ps: seq<Primitive>, es: seq<Entry>, e: Entry)
    requires MeshRefs(es, |ps|) && MeshRef(e.node, |ps|)
    ensures MeshRefs(es + [e], |ps|)
    ensures Apply(ps, es + [e]) == Stamp(Apply(ps, es), e)
  {
    assert (es + [e])[..|es|] == es;
  }

  /** load_glb_transformations: always succeeds; the records end up as the
      trace of the walk leaves them. */
  method LoadGlbTransformations(m: Model, doc: Gltf.Document) returns (ok: bool, m': Model)
    requires TransformsReady(doc, |m.meshes|)
    ensures ok
    ensures m' == Transformed(m, doc)
  {
    ghost var t := HierarchyOf(doc, |m.meshes|);
    var scene := doc.scenes[0];
    var roots := scene.nodes;
    var root := doc.nodes[roots[0]];
    var seed := VecToMat4x4(root.matrix);
    var stk := [Entry(root, seed)];
    ghost var heights: seq<nat> := [|doc.nodes|];
    ghost var visited: seq<Entry> := [];
    ghost var full := WalkTrace(doc, |m.meshes|);
    var meshes := m.meshes;
    PendingPush(t, [], [], Entry(root, seed), |doc.nodes|);
    assert Pending(t, stk, heights) == full;
    while |stk| > 0
      invariant StackWalkable(t, stk, heights)
      invariant visited + Pending(t, stk, heights) == full
      invariant MeshRefs(visited, |m.meshes|)
      invariant meshes == Apply(m.meshes, visited)
      decreases |full| - |visited|
    {
      PopEntry(t, stk, heights);
      var parent := stk[|stk| - 1];
      ghost var h := heights[|heights| - 1];
      stk := stk[..|stk| - 1];
      heights := heights[..|heights| - 1];
      ghost var below := Pending(t, stk, heights);
      ghost var rest := ChildTraces(t, parent.node.children, parent.matrix, h - 1);
      ConcatAssoc(visited, [parent], rest + below);

      ApplyStep(m.meshes, visited, parent);
      if parent.node.mesh != -1 {
        meshes := meshes[parent.node.mesh := meshes[parent.node.mesh].(modelMatrix := parent.matrix)];
      }
      assert meshes == Stamp(Apply(m.meshes, visited), parent);
      visited := visited + [parent];

      var children := parent.node.children;
      assert children[..0] == [];
      for j := 0 to |children|
        invariant StackWalkable(t, stk, heights)
        invariant Pending(t, stk, heights) == ChildTraces(t, children[..j], parent.matrix, h - 1) + below
      {
        var child := doc.nodes[children[j]];
        var childMatrix := NodeTransform(child);
        PushChild(t, stk, heights, children, j, parent.matrix, h - 1, below, child, childMatrix);
        stk := stk + [Entry(child, Mul(parent.matrix, childMatrix))];
        heights := heights + [h - 1];
      }
      assert children[..|children|] == children;
      assert Pending(t, stk, heights) == rest + below;
    }
    assert Pending(t, stk, heights) == [];
    assert visited + [] == visited;
    m' := m.(meshes := meshes);
    ok := true;
  }

  /** The matrix the last entry of `es` owning mesh k carries, if any. */
  function LastStamp(es: seq<Entry>, k: nat): (r: Option<Mat4>)
    ensures r.None? <==> forall i :: 0 <= i < |es| ==> es[i].node.mesh != k
    ensures r.Some? ==> exists i :: 0 <= i < |es| && es[i].node.mesh == k && es[i].matrix == r.value &&
                                     forall i' :: i < i' < |es| ==> es[i'].node.mesh != k
  {
    if es == [] then None
    else if es[|es| - 1].node.mesh == k then Some(es[|es| - 1].matrix)
    else
      var r := LastStamp(es[..|es| - 1], k);
      assert forall i :: 0 <= i < |es| - 1 ==> es[..|es| - 1][i] == es[i];
      r
  }

  /** Applying a trace changes only model matrices, and record k ends up
      with the matrix of the last entry that owns it, or keeps its own. */
  lemma {:induction false} ApplyRecord(ps: seq<Primitive>, es: seq<Entry>, k: nat)
    requires MeshRefs(es, |ps|) && k < |ps|
    ensures Apply(ps, es)[k] == ps[k].(modelMatrix := match LastStamp(es, k) {
                                         case Some(M) => M
                                         case None => ps[k].modelMatrix })
  {
    if es != [] {
      ApplyRecord(ps, es[..|es| - 1], k);
    }
  }

  /** load_glb_transformations as a whole: record k keeps its geometry and
      material and takes the matrix of the last node the walk pops that
      owns mesh k; a record no reached node owns keeps its matrix. */
  lemma TransformedRecord(m: Model, doc: Gltf.Document, k: nat)
    requires TransformsReady(doc, |m.meshes|) && k < |m.meshes|
    ensures |Transformed(m, doc).meshes| == |m.meshes| && Transformed(m, doc).name == m.name
    ensures Transformed(m, doc).meshes[k] ==
            m.meshes[k].(modelMatrix := match LastStamp(WalkTrace(doc, |m.meshes|), k) {
                                          case Some(M) => M
                                          case None => m.meshes[k].modelMatrix })
  {
    var root := Root(doc, |m.meshes|);
    TraceMeshRefs(HierarchyOf(doc, |m.meshes|), root, MatrixOf(root.matrix), |doc.nodes|);
    ApplyRecord(m.meshes, WalkTrace(doc, |m.meshes|), k);
  }

  /** The root is visited first, with the matrix of its `matrix` array:
      a root described by translation, rotation and scale gets the
      identity. */
  lemma RootTRSIgnored(doc: Gltf.Document, meshCount: nat)
    requires TransformsReady(doc, meshCount)
    ensures WalkTrace(doc, meshCount)[0] == Entry(Root(doc, meshCount), MatrixOf(Root(doc, meshCount).matrix))
    ensures Root(doc, meshCount).matrix == [] ==> WalkTrace(doc, meshCount)[0].matrix == Identity
  {
  }

  /** Every entry of a child's trace is an entry of the children's traces. */
  lemma {:induction false} InChildTraces(t: Hierarchy, cs: seq<int>, M: Mat4, h: nat, i: nat)
    requires ChildrenWalkable(t, cs, h) && i < |cs|
    ensures forall e :: e in Trace(t, t.nodes[cs[i]], Mul(M, t.local(t.nodes[cs[i]])), h) ==>
                        e in ChildTraces(t, cs, M, h)
  {
    if i < |cs| - 1 {
      assert cs[..|cs| - 1][i] == cs[i];
      InChildTraces(t, cs[..|cs| - 1], M, h, i);
    }
  }

  /** A child's subtree is walked with the parent's matrix times the
      child's local transform: each entry of the child's trace is in the
      parent's. */
  lemma ChildInTrace(t: Hierarchy, n: Gltf.Node, M: Mat4, h: nat, i: nat)
    requires Walkable(t, n, h) && i < |n.children|
    ensures Walkable(t, t.nodes[n.children[i]], h - 1)
    ensures Entry(t.nodes[n.children[i]], Mul(M, t.local(t.nodes[n.children[i]]))) in Trace(t, n, M, h)
    ensures forall e :: e in Trace(t, t.nodes[n.children[i]], Mul(M, t.local(t.nodes[n.children[i]])), h - 1) ==>
                        e in Trace(t, n, M, h)
  {
    var child := t.nodes[n.children[i]];
    InChildTraces(t, n.children, M, h - 1, i);
    assert Trace(t, child, Mul(M, t.local(child)), h - 1)[0] == Entry(child, Mul(M, t.local(child)));
  }

  /** Translation-only nodes accumulate their offsets: a child that has only
      a translation, under a parent visited with a translation, is visited
      with the sum of the two offsets. */
  lemma TranslationsAccumulate(doc: Gltf.Document, meshCount: nat, n: Gltf.Node, h: nat, i: nat,
                               x1: real, y1: real, z1: real, x2: real, y2: real, z2: real)
    requires Walkable(HierarchyOf(doc, meshCount), n, h) && i < |n.children|
    requires 0 <= n.children[i] < |doc.nodes|
    requires var c := doc.nodes[n.children[i]];
      c.matrix == [] && c.translation == [x2, y2, z2] && c.rotation == [] && c.scale == []
    ensures Entry(doc.nodes[n.children[i]], Translation(x1 + x2, y1 + y2, z1 + z2))
              in Trace(HierarchyOf(doc, meshCount), n, Translation(x1, y1, z1), h)
  {
    ChildInTrace(HierarchyOf(doc, meshCount), n, Translation(x1, y1, z1), h, i);
    TranslationOnly(doc.nodes[n.children[i]], x2, y2, z2);
    TranslationsCompose(x1, y1, z1, x2, y2, z2);
  }

  /** Matrices compose down the tree: a grandchild B of the root, reached
      through A, is visited with seed × local(A) × local(B). */
  lemma GrandchildMatrix(doc: Gltf.Document, meshCount: nat, i: nat, j: nat)
    requires TransformsReady(doc, meshCount)
    requires i < |Root(doc, meshCount).children|
    requires 0 <= Root(doc, meshCount).children[i] < |doc.nodes|
    requires j < |doc.nodes[Root(doc, meshCount).children[i]].children|
    requires 0 <= doc.nodes[Root(doc, meshCount).children[i]].children[j] < |doc.nodes|
    ensures var a := doc.nodes[Root(doc, meshCount).children[i]];
            |a.matrix| == 0 || |a.matrix| == 16
    ensures var root := Root(doc, meshCount);
            var a := doc.nodes[root.children[i]];
            var b := doc.nodes[a.children[j]];
            (|b.matrix| == 0 || |b.matrix| == 16) &&
            Entry(b, Mul(Mul(MatrixOf(root.matrix), NodeTransform(a)), NodeTransform(b))) in WalkTrace(doc, meshCount)
  {
    var t := HierarchyOf(doc, meshCount);
    var root := Root(doc, meshCount);
    var a := doc.nodes[root.children[i]];
    var b := doc.nodes[a.children[j]];
    var seed := MatrixOf(root.matrix);
    ChildInTrace(t, root, seed, |doc.nodes|, i);
    ChildInTrace(t, a, Mul(seed, NodeTransform(a)), |doc.nodes| - 1, j);
  }

  /** A root (node 0) with a single leaf child (node 1) is walked as the
      root, then the child with M × its local transform. */
  lemma RootAndLeafTrace(t: Hierarchy, M: Mat4)
    requires |t.nodes| == 2 && t.nodes[0].children == [1] && t.nodes[1].children == []
    requires Walkable(t, t.nodes[0], 2) && Walkable(t, t.nodes[1], 1)
    ensures Trace(t, t.nodes[0], M, 2) == [Entry(t.nodes[0], M), Entry(t.nodes[1], Mul(M, t.local(t.nodes[1])))]
  {
    var child := t.nodes[1];
    var e1 := Entry(child, Mul(M, t.local(child)));
    assert Trace(t, child, e1.matrix, 1) == [e1];
    assert [1][..0] == [];
    assert ChildTraces(t, [1], M, 1) == [e1];
  }

  /** A two-node scene: the root (node 0) carries the translation r in its
      TRS arrays and has one child (node 1), translated by (x, y, z), that
      owns mesh 0. */
  function ScenarioDoc(r: seq<real>, x: real, y: real, z: real): Gltf.Document {
    var root := Gltf.Node([1], -1, [], r, [], []);
    var child := Gltf.Node([], 0, [], [x, y, z], [], []);
    Gltf.Document([], [], [], [], [], [], [], [], [root, child], [Gltf.Scene([0])])
  }

  lemma ScenarioWalk(r: seq<real>, x: real, y: real, z: real)
    ensures var doc := ScenarioDoc(r, x, y, z);
            TransformsReady(doc, 1) &&
            WalkTrace(doc, 1) == [Entry(doc.nodes[0], Identity), Entry(doc.nodes[1], Mul(Identity, NodeTransform(doc.nodes[1])))]
  {
    var doc := ScenarioDoc(r, x, y, z);
    var t := HierarchyOf(doc, 1);
    assert Walkable(t, doc.nodes[1], 1);
    assert Walkable(t, doc.nodes[0], 2);
    RootAndLeafTrace(t, Identity);
  }

  lemma ApplyTwo(p: Primitive, e0: Entry, e1: Entry)
    requires e0.node.mesh == -1 && e1.node.mesh == 0
    ensures MeshRefs([e0, e1], 1)
    ensures Apply([p], [e0, e1]) == [p.(modelMatrix := e1.matrix)]
  {
    assert [e0, e1][..1] == [e0];
    assert [e0][..0] == [];
    assert Apply([p], [e0]) == Stamp([p], e0) == [p];
    assert Stamp([p], e1) == [p.(modelMatrix := e1.matrix)];
  }

  lemma ScenarioChildMatrix(r: seq<real>, x: real, y: real, z: real)
    ensures Mul(Identity, NodeTransform(ScenarioDoc(r, x, y, z).nodes[1])) == Translation(x, y, z)
  {
    TranslationOnly(ScenarioDoc(r, x, y, z).nodes[1], x, y, z);
    MulIdentityLeft(Translation(x, y, z));
  }

  /** In that scene mesh 0 gets the child's translation alone: the root's
      own translation is dropped. */
  lemma TranslatedRootScenario(p: Primitive, r: seq<real>, x: real, y: real, z: real)
    ensures TransformsReady(ScenarioDoc(r, x, y, z), 1)
    ensures Transformed(Model([p], "scene"), ScenarioDoc(r, x, y, z)).meshes == [p.(modelMatrix := Translation(x, y, z))]
  {
    var doc := ScenarioDoc(r, x, y, z);
    ScenarioWalk(r, x, y, z);
    var e0 := Entry(doc.nodes[0], Identity);
    var e1 := Entry(doc.nodes[1], Mul(Identity, NodeTransform(doc.nodes[1])));
    ApplyTwo(p, e0, e1);
    ScenarioChildMatrix(r, x, y, z);
  }
}
