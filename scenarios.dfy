// Clients of the pass on small concrete modules: what a run does to them,
// derived from the contracts of `Mallocazam.RunOnModule` alone.

module Scenarios {
  import opened IR
  import opened Rewrite
  import opened Pass

  const A: Ty := Struct("A", [Int(32)])
  const B: Ty := Struct("B", [Int(64)])

  /** A heap pointer, received as the function's only argument. */
  const Heap: Value := Arg(0, I8Ptr)

  /** `void f(i8* p)` with a single block `body`. */
  function OneBlock(body: seq<Inst>): Function {
    Function("f", [I8Ptr], Void, ExternalLinkage, {}, [Block("entry", body)])
  }

  /** Two casts of a heap pointer to `A*`, one to `B*`, and one to `A*` of a stack allocation. */
  const ThreeCastsBlock: seq<Inst> :=
    [Alloca(0, Array(16, I8)),
     BitCast(1, Heap, Ptr(A)), BitCast(2, Heap, Ptr(A)), BitCast(3, Heap, Ptr(B)),
     BitCast(4, Reg(0, Ptr(Array(16, I8)), AllocaOp), Ptr(A)),
     RetVoid]

  /**
   * The three heap casts get hook calls, the two `A*` casts passing one shared
   * type string and the `B*` cast a different one; the stack cast gets nothing,
   * and the module gains exactly two globals.
   */
  method ThreeCasts(render: Ty -> Text) returns (m: Module, gA: GlobalVariable, gB: GlobalVariable)
    requires render(A) != render(B)
    ensures |m.functions| == 2 && m.functions[1] == HookDefinition()
    ensures |m.functions[0].blocks| == 1
    ensures var orig := ThreeCastsBlock;
            m.functions[0].blocks[0].insts ==
              [orig[0], HookCall(1, Heap, gA), orig[1], HookCall(1, Heap, gA), orig[2],
               HookCall(1, Heap, gB), orig[3], orig[4], orig[5]]
    ensures gA != gB && |m.globals| == 2 && gA in m.globals && gB in m.globals
  {
    var orig := ThreeCastsBlock;
    RenderingsThreeCasts(orig, render);
    m := new Module([OneBlock(orig)], [], 5);
    var pass := new Mallocazam();
    var _ := pass.RunOnModule(m, render);
    ghost var t := pass.stringValueMap;
    ThreeCastsRewritten(orig, m.functions[0].blocks[0].insts, t, render, m.nextId);
    gA, gB := pass.stringValueMap[render(A)], pass.stringValueMap[render(B)];
    GrownCount([], m.globals, map[], t, {render(A), render(B)});
  }

  /** The block `ThreeCastsBlock` after the pass, instruction by instruction. */
  lemma ThreeCastsRewritten(orig: seq<Inst>, out: seq<Inst>, t: map<Text, GlobalVariable>,
                            render: Ty -> Text, hi: nat)
    requires orig == ThreeCastsBlock
    requires Rewritten(orig, out, 1, t, render, 5, hi) && TableInjective(t) && render(A) != render(B)
    ensures render(A) in t && render(B) in t && t[render(A)] != t[render(B)]
    ensures out == [orig[0], HookCall(1, Heap, t[render(A)]), orig[1], HookCall(1, Heap, t[render(A)]), orig[2],
                    HookCall(1, Heap, t[render(B)]), orig[3], orig[4], orig[5]]
  {
    ThreeCastsPositions(orig);
    var g1, _ := HookGlobal(orig, out, 1, t, render, 5, hi, 1);
    var g2, _ := HookGlobal(orig, out, 1, t, render, 5, hi, 2);
    var g3, _ := HookGlobal(orig, out, 1, t, render, 5, hi, 3);
    PlacementPos(orig, out, 1, t, render, 5, hi, 0);
    PlacementPos(orig, out, 1, t, render, 5, hi, 1);
    PlacementPos(orig, out, 1, t, render, 5, hi, 2);
    PlacementPos(orig, out, 1, t, render, 5, hi, 3);
    PlacementPos(orig, out, 1, t, render, 5, hi, 4);
    PlacementPos(orig, out, 1, t, render, 5, hi, 5);
    RewrittenEnd(orig, out, 1, t, render, 5, hi);
  }

  /** Where the original instructions of `ThreeCastsBlock` land: one stub call in front of each heap cast. */
  lemma ThreeCastsPositions(orig: seq<Inst>)
    requires |orig| == 6 && StubLength(orig[0]) == 0 && StubLength(orig[1]) == 1 && StubLength(orig[2]) == 1
    requires StubLength(orig[3]) == 1 && StubLength(orig[4]) == 0 && StubLength(orig[5]) == 0
    ensures Pos(orig, 0) == 0 && Pos(orig, 1) == 2 && Pos(orig, 2) == 4
    ensures Pos(orig, 3) == 6 && Pos(orig, 4) == 7 && Pos(orig, 5) == 8
  {
    PosStep(orig, 1);
    PosStep(orig, 2);
    PosStep(orig, 3);
    PosStep(orig, 4);
    PosStep(orig, 5);
  }

  /** The texts a one-function, one-block module renders, peeled a cast at a time. */
  lemma RenderingsThreeCasts(orig: seq<Inst>, render: Ty -> Text)
    requires orig == [Alloca(0, Array(16, I8)),
                      BitCast(1, Heap, Ptr(A)), BitCast(2, Heap, Ptr(A)), BitCast(3, Heap, Ptr(B)),
                      BitCast(4, Reg(0, Ptr(Array(16, I8)), AllocaOp), Ptr(A)),
                      RetVoid]
    ensures FunctionsRenderings([OneBlock(orig)], render) == {render(A), render(B)}
  {
    var s5 := [RetVoid];
    var s4 := [orig[4]] + s5;
    var s3 := [orig[3]] + s4;
    var s2 := [orig[2]] + s3;
    var s1 := [orig[1]] + s2;
    assert orig == [orig[0]] + s1;
    RenderingsCons(RetVoid, [], render);
    RenderingsCons(orig[4], s5, render);
    RenderingsCons(orig[3], s4, render);
    RenderingsCons(orig[2], s3, render);
    RenderingsCons(orig[1], s2, render);
    RenderingsCons(orig[0], s1, render);
    assert Renderings(orig, render) == {render(A), render(B)};
    assert BlocksRenderings(OneBlock(orig).blocks, render) == {render(A), render(B)};
    assert [OneBlock(orig)][..0] == [];
    assert OneBlock(orig).blocks[..0] == [];
  }

  /**
   * The table survives from one module to the next: a second module whose cast
   * renders like one already seen gains no global of its own, and its hook call
   * passes the first module's global, which the second module does not hold.
   */
  method StaleTable(render: Ty -> Text) returns (m1: Module, m2: Module, g: GlobalVariable)
    ensures |m1.globals| == 1 && m1.globals[0] == g
    ensures m2.globals == [] && g !in m2.globals
    ensures |m2.functions| == 2 && |m2.functions[0].blocks| == 1
    ensures m2.functions[0].blocks[0].insts == [HookCall(1, Heap, g), BitCast(0, Heap, Ptr(A)), RetVoid]
  {
    var body := [BitCast(0, Heap, Ptr(A)), RetVoid];
    RenderingsOneCast(body, render);
    var pass := new Mallocazam();
    m1 := new Module([OneBlock(body)], [], 1);
    var _ := pass.RunOnModule(m1, render);
    ghost var t1 := pass.stringValueMap;
    m2 := new Module([OneBlock(body)], [], 1);
    var _ := pass.RunOnModule(m2, render);
    ghost var t2 := pass.stringValueMap;
    StaleGlobals(m1.globals, m2.globals, t1, t2, render(A));
    g := pass.stringValueMap[render(A)];
    OneCastRewritten(body, m2.functions[0].blocks[0].insts, t2, render, m2.nextId);
  }

  lemma RenderingsOneCast(body: seq<Inst>, render: Ty -> Text)
    requires body == [BitCast(0, Heap, Ptr(A)), RetVoid]
    ensures FunctionsRenderings([OneBlock(body)], render) == {render(A)}
  {
    RenderingsCons(RetVoid, [], render);
    RenderingsCons(body[0], [RetVoid], render);
    assert body == [body[0]] + [RetVoid];
    assert Renderings(body, render) == {render(A)};
    assert BlocksRenderings(OneBlock(body).blocks, render) == {render(A)};
    assert [OneBlock(body)][..0] == [];
  }

  /**
   * Across two runs from an empty table over modules rendering only `s`: the
   * first module gains the one global, the second none, and the table keeps
   * pointing at the first module's global.
   */
  lemma StaleGlobals(gs1: seq<GlobalVariable>, gs2: seq<GlobalVariable>,
                     t1: map<Text, GlobalVariable>, t2: map<Text, GlobalVariable>, s: Text)
    requires Grown([], gs1, map[], t1, {s}) && TableIn(t1, gs1)
    requires Grown([], gs2, t1, t2, {s})
    ensures s in t2 && |gs1| == 1 && gs1[0] == t2[s] && gs2 == []
  {
    GrownCount([], gs1, map[], t1, {s});
    GrownCount([], gs2, t1, t2, {s});
    assert {s} - t1.Keys == {};
  }

  /** The hook call that the run puts in front of the only cast of `body`. */
  lemma OneCastRewritten(body: seq<Inst>, out: seq<Inst>, t: map<Text, GlobalVariable>, render: Ty -> Text, hi: nat)
    requires body == [BitCast(0, Heap, Ptr(A)), RetVoid]
    requires Rewritten(body, out, 1, t, render, 1, hi)
    ensures render(A) in t && out == [HookCall(1, Heap, t[render(A)]), body[0], RetVoid]
  {
    var g, _ := HookGlobal(body, out, 1, t, render, 1, hi, 0);
    PlacementPos(body, out, 1, t, render, 1, hi, 1);
    RewrittenEnd(body, out, 1, t, render, 1, hi);
  }

  /**
   * Nothing stops a second run on the same module: it defines a second hook,
   * with the same name, and instruments the module again.
   */
  method DoubleRun(render: Ty -> Text) returns (m: Module)
    ensures |m.functions| == 3 && m.functions[1] == HookDefinition() && m.functions[2] == HookDefinition()
  {
    m := new Module([OneBlock([BitCast(0, Heap, Ptr(A)), RetVoid])], [], 1);
    var pass := new Mallocazam();
    var _ := pass.RunOnModule(m, render);
    ghost var mid := m.nextId;
    var _ := pass.RunOnModule(m, render);
    HookRewritten(m.functions[1], 2, pass.stringValueMap, render, mid, m.nextId);
  }
}
