// What the pass does to one basic block, stated as a relation between the
// block before and after the rewrite, with the properties that follow from it.

module Rewrite {
  import opened IR

  /**
   * The selection test of `runOnModule`: a `bitcast` whose result type and
   * operand type are both pointers and whose operand is not itself the result
   * of an `alloca` (only the immediate operand is inspected).
   */
  predicate Eligible(i: Inst) {
    i.BitCast? && i.dest.Ptr? && TypeOf(i.src).Ptr? && !IsAllocaResult(i.src)
  }

  /** A re-cast instruction is emitted when the operand is neither `i8*` already nor a constant IRBuilder folds. */
  predicate EmitsRecast(op: Value) {
    TypeOf(op) != I8Ptr && !IsConstant(op)
  }

  /** The hook's first argument for a cast of `op`; `id` numbers the re-cast instruction, if one is emitted. */
  function HookArg0(op: Value, id: nat): Value {
    if TypeOf(op) == I8Ptr then op
    else if IsConstant(op) then ConstCast(op, I8Ptr)
    else Reg(id, I8Ptr, BitCastOp)
  }

  /** The call to the hook function, numbered `hook`, with the type-string global `g`. */
  function HookCall(hook: nat, a0: Value, g: GlobalVariable): Inst {
    Call(hook, [a0, StringStart(g)])
  }

  /** How many instructions the pass puts in front of `i`. */
  function StubLength(i: Inst): nat {
    if !Eligible(i) then 0 else if EmitsRecast(i.src) then 2 else 1
  }

  /** The instructions inserted immediately before the eligible cast `c`. */
  function Stub(c: Inst, hook: nat, g: GlobalVariable, id: nat): (r: seq<Inst>)
    requires Eligible(c)
    ensures |r| == StubLength(c)
  {
    (if EmitsRecast(c.src) then [BitCast(id, c.src, I8Ptr)] else []) + [HookCall(hook, HookArg0(c.src, id), g)]
  }

  /** The identity the re-cast in front of the first instruction of a rewritten block takes (0 if there is none). */
  function HeadId(c: Inst, out: seq<Inst>): nat {
    if StubLength(c) == 2 && |out| > 0 && out[0].BitCast? then out[0].id else 0
  }

  /** The first identity still free after the first instruction of a rewritten block. */
  function HeadNext(c: Inst, out: seq<Inst>, lo: nat): nat {
    if StubLength(c) == 2 && |out| > 0 && out[0].BitCast? then out[0].id + 1 else lo
  }

  /**
   * `out` is the block `orig` after the pass: every original instruction is kept,
   * in order, and each eligible cast is preceded by its stub, whose type string
   * is the table's global for the rendered pointee type and whose re-cast (if
   * any) takes a fresh identity in `[lo, hi)`, increasing along the block.
   */
  ghost predicate Rewritten(orig: seq<Inst>, out: seq<Inst>, hook: nat,
                            table: map<Text, GlobalVariable>, render: Ty -> Text, lo: nat, hi: nat)
    decreases |orig|
  {
    if orig == [] then out == [] && lo <= hi
    else
      var c := orig[0];
      var n := StubLength(c);
      n < |out| && out[n] == c &&
      (n == 2 ==> out[0].BitCast? && lo <= out[0].id < hi) &&
      (Eligible(c) ==>
         render(c.dest.pointee) in table &&
         out[..n] == Stub(c, hook, table[render(c.dest.pointee)], HeadId(c, out))) &&
      Rewritten(orig[1..], out[n + 1..], hook, table, render, HeadNext(c, out, lo), hi)
  }

  /** `t'` keeps every entry of `t`. */
  ghost predicate Extends(t: map<Text, GlobalVariable>, t': map<Text, GlobalVariable>) {
    forall s :: s in t ==> s in t' && t'[s] == t[s]
  }

  /** Distinct texts have distinct globals. */
  ghost predicate TableInjective(t: map<Text, GlobalVariable>) {
    forall s, s' :: s in t && s' in t && s != s' ==> t[s] != t[s']
  }

  predicate NoneEligible(s: seq<Inst>) {
    forall k :: 0 <= k < |s| ==> !Eligible(s[k])
  }

  /** The rendered pointee types of the eligible casts of a block. */
  ghost function Renderings(s: seq<Inst>, render: Ty -> Text): set<Text>
    decreases |s|
  {
    if s == [] then {}
    else
      var last := s[|s| - 1];
      Renderings(s[..|s| - 1], render) + (if Eligible(last) then {render(last.dest.pointee)} else {})
  }

  ghost function BlocksRenderings(bs: seq<Block>, render: Ty -> Text): set<Text>
    decreases |bs|
  {
    if bs == [] then {}
    else BlocksRenderings(bs[..|bs| - 1], render) + Renderings(bs[|bs| - 1].insts, render)
  }

  ghost function FunctionsRenderings(fs: seq<Function>, render: Ty -> Text): set<Text>
    decreases |fs|
  {
    if fs == [] then {}
    else FunctionsRenderings(fs[..|fs| - 1], render) + BlocksRenderings(fs[|fs| - 1].blocks, render)
  }

  /** The function `fn` after the pass: same header, same blocks, each block rewritten. */
  ghost predicate FunctionRewritten(fn: Function, fn': Function, hook: nat,
                                    table: map<Text, GlobalVariable>, render: Ty -> Text, lo: nat, hi: nat)
  {
    fn' == fn.(blocks := fn'.blocks) && |fn'.blocks| == |fn.blocks| &&
    forall b :: 0 <= b < |fn.blocks| ==>
      fn'.blocks[b].name == fn.blocks[b].name &&
      Rewritten(fn.blocks[b].insts, fn'.blocks[b].insts, hook, table, render, lo, hi)
  }

  /**
   * Every block of `fn'` is the matching block of `fn` with instructions inserted
   * that `Strip` deletes, and holds one hook call per eligible cast of the original.
   */
  ghost predicate FunctionKept(fn: Function, fn': Function, hook: nat, base: nat) {
    |fn'.blocks| == |fn.blocks| &&
    forall b :: 0 <= b < |fn.blocks| ==>
      Strip(fn'.blocks[b].insts, hook, base) == fn.blocks[b].insts &&
      CountHookCalls(fn'.blocks[b].insts, hook) == CountEligible(fn.blocks[b].insts)
  }

  /** An instruction the pass inserted: a call to the hook, or a re-cast with a fresh identity. */
  predicate Inserted(i: Inst, hook: nat, base: nat) {
    (i.Call? && i.callee == hook) || (i.BitCast? && i.id >= base)
  }

  /** The block with the inserted instructions deleted. */
  function Strip(s: seq<Inst>, hook: nat, base: nat): seq<Inst> {
    if s == [] then []
    else (if Inserted(s[0], hook, base) then [] else [s[0]]) + Strip(s[1..], hook, base)
  }

  function CountHookCalls(s: seq<Inst>, hook: nat): nat {
    if s == [] then 0
    else (if s[0].Call? && s[0].callee == hook then 1 else 0) + CountHookCalls(s[1..], hook)
  }

  function CountEligible(s: seq<Inst>): nat {
    if s == [] then 0
    else (if Eligible(s[0]) then 1 else 0) + CountEligible(s[1..])
  }

  /** The position of original instruction `k` in the rewritten block. */
  function Pos(orig: seq<Inst>, k: nat): nat
    requires k < |orig|
    decreases k
  {
    StubLength(orig[0]) + if k == 0 then 0 else 1 + Pos(orig[1..], k - 1)
  }

  // ---------------------------------------------------------------------------
  // Building a rewritten block piece by piece

  /** A stretch without eligible casts is rewritten to itself. */
  lemma {:induction false} RewrittenUnchanged(o: seq<Inst>, hook: nat, table: map<Text, GlobalVariable>,
                                              render: Ty -> Text, lo: nat)
    requires NoneEligible(o)
    ensures Rewritten(o, o, hook, table, render, lo, lo)
    decreases |o|
  {
    if o != [] {
      assert !Eligible(o[0]);
      RewrittenUnchanged(o[1..], hook, table, render, lo);
    }
  }

  /** Conversely, the only rewriting of a stretch without eligible casts is the stretch itself. */
  lemma {:induction false} RewrittenNoneEligible(orig: seq<Inst>, out: seq<Inst>, hook: nat,
                                                 table: map<Text, GlobalVariable>, render: Ty -> Text,
                                                 lo: nat, hi: nat)
    requires Rewritten(orig, out, hook, table, render, lo, hi) && NoneEligible(orig)
    ensures out == orig
    decreases |orig|
  {
    if orig != [] {
      assert !Eligible(orig[0]);
      assert forall k :: 0 <= k < |orig[1..]| ==> orig[1..][k] == orig[k + 1];
      RewrittenNoneEligible(orig[1..], out[1..], hook, table, render, lo, hi);
      assert out == [out[0]] + out[1..];
    }
  }

  /** One eligible cast with its stub in front of it. */
  lemma RewrittenSingle(c: Inst, hook: nat, table: map<Text, GlobalVariable>, render: Ty -> Text,
                        id: nat, lo: nat, hi: nat)
    requires Eligible(c) && render(c.dest.pointee) in table
    requires lo <= id && (if EmitsRecast(c.src) then id < hi && id + 1 <= hi else lo <= hi)
    ensures Rewritten([c], Stub(c, hook, table[render(c.dest.pointee)], id) + [c], hook, table, render, lo, hi)
  {
    var out := Stub(c, hook, table[render(c.dest.pointee)], id) + [c];
    assert out[StubLength(c) + 1..] == [];
    assert out[..StubLength(c)] == Stub(c, hook, table[render(c.dest.pointee)], HeadId(c, out));
  }

  lemma {:induction false} RewrittenAppend(o1: seq<Inst>, n1: seq<Inst>, o2: seq<Inst>, n2: seq<Inst>, hook: nat,
                                           table: map<Text, GlobalVariable>, render: Ty -> Text,
                                           lo: nat, mid: nat, hi: nat)
    requires Rewritten(o1, n1, hook, table, render, lo, mid)
    requires Rewritten(o2, n2, hook, table, render, mid, hi)
    ensures Rewritten(o1 + o2, n1 + n2, hook, table, render, lo, hi)
    decreases |o1|
  {
    if o1 == [] {
      assert o1 + o2 == o2 && n1 + n2 == n2;
      RewrittenMono(o2, n2, hook, table, table, render, mid, hi, lo, hi);
    } else {
      var c := o1[0];
      var n := StubLength(c);
      var o, out := o1 + o2, n1 + n2;
      assert o[0] == c && o[1..] == o1[1..] + o2;
      assert out[..n] == n1[..n] && out[n] == c;
      assert out[n + 1..] == n1[n + 1..] + n2;
      assert HeadId(c, out) == HeadId(c, n1) && HeadNext(c, out, lo) == HeadNext(c, n1, lo);
      if n == 2 {
        RewrittenRange(o2, n2, hook, table, render, mid, hi);
      }
      RewrittenAppend(o1[1..], n1[n + 1..], o2, n2, hook, table, render, HeadNext(c, n1, lo), mid, hi);
      assert Rewritten(o[1..], out[n + 1..], hook, table, render, HeadNext(c, out, lo), hi);
    }
  }

  /** A rewrite stays one under a larger table and a wider identity range. */
  lemma {:induction false} RewrittenMono(o: seq<Inst>, out: seq<Inst>, hook: nat,
                                         t: map<Text, GlobalVariable>, t': map<Text, GlobalVariable>,
                                         render: Ty -> Text, lo: nat, hi: nat, lo': nat, hi': nat)
    requires Rewritten(o, out, hook, t, render, lo, hi)
    requires Extends(t, t') && lo' <= lo && hi <= hi'
    ensures Rewritten(o, out, hook, t', render, lo', hi')
    decreases |o|
  {
    if o != [] {
      var c := o[0];
      RewrittenMono(o[1..], out[StubLength(c) + 1..], hook, t, t', render,
                    HeadNext(c, out, lo), hi, HeadNext(c, out, lo'), hi');
    }
  }

  lemma FunctionRewrittenMono(fn: Function, fn': Function, hook: nat,
                              t: map<Text, GlobalVariable>, t': map<Text, GlobalVariable>,
                              render: Ty -> Text, lo: nat, hi: nat, hi': nat)
    requires FunctionRewritten(fn, fn', hook, t, render, lo, hi)
    requires Extends(t, t') && hi <= hi'
    ensures FunctionRewritten(fn, fn', hook, t', render, lo, hi')
  {
    forall b | 0 <= b < |fn.blocks|
      ensures Rewritten(fn.blocks[b].insts, fn'.blocks[b].insts, hook, t', render, lo, hi')
    {
      RewrittenMono(fn.blocks[b].insts, fn'.blocks[b].insts, hook, t, t', render, lo, hi, lo, hi');
    }
  }

  lemma {:induction false} RenderingsAppend(a: seq<Inst>, b: seq<Inst>, render: Ty -> Text)
    ensures Renderings(a + b, render) == Renderings(a, render) + Renderings(b, render)
    decreases |b|
  {
    if b == [] {
      assert a + b == a;
    } else {
      var ab := a + b;
      assert ab[..|ab| - 1] == a + b[..|b| - 1];
      assert ab[|ab| - 1] == b[|b| - 1];
      RenderingsAppend(a, b[..|b| - 1], render);
    }
  }

  /** The renderings of a block, taken from its first instruction on. */
  lemma RenderingsCons(x: Inst, s: seq<Inst>, render: Ty -> Text)
    ensures Renderings([x] + s, render) ==
            (if Eligible(x) then {render(x.dest.pointee)} else {}) + Renderings(s, render)
  {
    RenderingsAppend([x], s, render);
    assert [x][..0] == [];
  }

  lemma {:induction false} RenderingsNone(s: seq<Inst>, render: Ty -> Text)
    requires NoneEligible(s)
    ensures Renderings(s, render) == {}
    decreases |s|
  {
    if s != [] {
      assert !Eligible(s[|s| - 1]);
      RenderingsNone(s[..|s| - 1], render);
    }
  }

  // ---------------------------------------------------------------------------
  // Properties of a rewritten block

  /**
   * The rewrite consumes identities only upward: a rewrite over `[lo, hi)` has `lo <= hi`.
   */
  lemma {:induction false} RewrittenRange(orig: seq<Inst>, out: seq<Inst>, hook: nat,
                                          table: map<Text, GlobalVariable>, render: Ty -> Text, lo: nat, hi: nat)
    requires Rewritten(orig, out, hook, table, render, lo, hi)
    ensures lo <= hi
    decreases |orig|
  {
    if orig != [] {
      var c := orig[0];
      RewrittenRange(orig[1..], out[StubLength(c) + 1..], hook, table, render, HeadNext(c, out, lo), hi);
    }
  }

  lemma {:induction false} StripAppend(a: seq<Inst>, b: seq<Inst>, hook: nat, base: nat)
    ensures Strip(a + b, hook, base) == Strip(a, hook, base) + Strip(b, hook, base)
    decreases |a|
  {
    if a == [] {
      assert a + b == b;
    } else {
      assert (a + b)[0] == a[0] && (a + b)[1..] == a[1..] + b;
      StripAppend(a[1..], b, hook, base);
    }
  }

  /** `Strip` deletes a stub whose re-cast identity is at or above `base`. */
  lemma StubStripped(c: Inst, hook: nat, g: GlobalVariable, id: nat, base: nat, pre: seq<Inst>)
    requires Eligible(c) && pre == Stub(c, hook, g, id) && (EmitsRecast(c.src) ==> base <= id)
    ensures Strip(pre, hook, base) == []
  {
    if EmitsRecast(c.src) {
      assert Inserted(pre[0], hook, base) && Inserted(pre[1], hook, base);
      assert pre[1..][1..] == [];
      assert Strip(pre[1..], hook, base) == [];
    } else {
      assert Inserted(pre[0], hook, base) && pre[1..] == [];
    }
  }

  /**
   * Deleting the inserted instructions from the rewritten block gives back the
   * original block exactly, provided the original holds no call to the new hook
   * and no identity at or above `base` (true of a well-formed module).
   */
  lemma {:induction false} StripRewritten(orig: seq<Inst>, out: seq<Inst>, hook: nat,
                                          table: map<Text, GlobalVariable>, render: Ty -> Text,
                                          base: nat, lo: nat, hi: nat)
    requires Rewritten(orig, out, hook, table, render, lo, hi)
    requires base <= lo && BlockBelow(orig, hook, base)
    ensures Strip(out, hook, base) == orig
    decreases |orig|
  {
    if orig == [] {
      assert out == [];
    } else {
      var c := orig[0];
      var n := StubLength(c);
      BlockBelowTail(orig, hook, base);
      assert out == out[..n] + [c] + out[n + 1..];
      StripAppend(out[..n] + [c], out[n + 1..], hook, base);
      StripAppend(out[..n], [c], hook, base);
      assert Strip([c], hook, base) == [c];
      if Eligible(c) {
        StubStripped(c, hook, table[render(c.dest.pointee)], HeadId(c, out), base, out[..n]);
      } else {
        assert out[..n] == [];
      }
      StripRewritten(orig[1..], out[n + 1..], hook, table, render, base, HeadNext(c, out, lo), hi);
      assert orig == [c] + orig[1..];
    }
  }

  lemma {:induction false} CountHookCallsAppend(a: seq<Inst>, b: seq<Inst>, hook: nat)
    ensures CountHookCalls(a + b, hook) == CountHookCalls(a, hook) + CountHookCalls(b, hook)
    decreases |a|
  {
    if a == [] {
      assert a + b == b;
    } else {
      assert (a + b)[0] == a[0] && (a + b)[1..] == a[1..] + b;
      CountHookCallsAppend(a[1..], b, hook);
    }
  }

  /** A stub holds exactly one hook call. */
  lemma StubHookCalls(c: Inst, hook: nat, g: GlobalVariable, id: nat)
    requires Eligible(c)
    ensures CountHookCalls(Stub(c, hook, g, id), hook) == 1
  {
    var s := Stub(c, hook, g, id);
    if EmitsRecast(c.src) {
      assert s[1..][1..] == [];
      assert CountHookCalls(s[1..], hook) == 1;
    } else {
      assert s[1..] == [];
    }
  }

  /**
   * Each eligible cast gets exactly one call to the hook: the rewritten block
   * holds as many more hook calls as the original block had eligible casts.
   */
  lemma {:induction false} HookCallCount(orig: seq<Inst>, out: seq<Inst>, hook: nat,
                                         table: map<Text, GlobalVariable>, render: Ty -> Text, lo: nat, hi: nat)
    requires Rewritten(orig, out, hook, table, render, lo, hi)
    ensures CountHookCalls(out, hook) == CountHookCalls(orig, hook) + CountEligible(orig)
    decreases |orig|
  {
    if orig != [] {
      var c := orig[0];
      var n := StubLength(c);
      assert out == out[..n] + [c] + out[n + 1..];
      CountHookCallsAppend(out[..n] + [c], out[n + 1..], hook);
      CountHookCallsAppend(out[..n], [c], hook);
      assert orig == [c] + orig[1..];
      CountHookCallsAppend([c], orig[1..], hook);
      if Eligible(c) {
        StubHookCalls(c, hook, table[render(c.dest.pointee)], HeadId(c, out));
      } else {
        assert out[..n] == [];
      }
      HookCallCount(orig[1..], out[n + 1..], hook, table, render, HeadNext(c, out, lo), hi);
    }
  }

  /** A well-formed block calls no function numbered `nf` or above, so not a hook created after it. */
  lemma {:induction false} NoHookCalls(orig: seq<Inst>, nf: nat, top: nat)
    requires BlockBelow(orig, nf, top)
    ensures CountHookCalls(orig, nf) == 0
    decreases |orig|
  {
    if orig != [] {
      BlockBelowTail(orig, nf, top);
      NoHookCalls(orig[1..], nf, top);
    }
  }

  /** The rewrite keeps a block well formed once the hook exists and the fresh identities are allocated. */
  lemma {:induction false} RewrittenBelow(orig: seq<Inst>, out: seq<Inst>, hook: nat,
                                          table: map<Text, GlobalVariable>, render: Ty -> Text,
                                          lo: nat, hi: nat, nf: nat, top: nat)
    requires Rewritten(orig, out, hook, table, render, lo, hi)
    requires BlockBelow(orig, nf, top) && hook < nf && hi <= top
    ensures BlockBelow(out, nf, top)
    decreases |orig|
  {
    if orig != [] {
      var c := orig[0];
      var n := StubLength(c);
      BlockBelowTail(orig, nf, top);
      var rest := out[n + 1..];
      RewrittenBelow(orig[1..], rest, hook, table, render, HeadNext(c, out, lo), hi, nf, top);
      forall k | 0 <= k < |out| ensures InstBelow(out[k], nf, top) {
        if k > n {
          assert out[k] == rest[k - n - 1];
        } else if k < n {
          assert out[k] == out[..n][k];
        }
      }
    }
  }

  /** Where the instructions inserted for original instruction `k` begin: just after original `k - 1`. */
  function Start(orig: seq<Inst>, k: nat): nat
    requires k < |orig|
  {
    if k == 0 then 0 else Pos(orig, k - 1) + 1
  }

  /**
   * Placement: original instruction `k` sits at `Pos(orig, k)`; immediately
   * before it, after the previous original instruction, are exactly its stub
   * (whose re-cast, if any, is numbered `id`) when it is eligible, and nothing
   * when it is not.
   */
  lemma Placement(orig: seq<Inst>, out: seq<Inst>, hook: nat,
                  table: map<Text, GlobalVariable>, render: Ty -> Text,
                  lo: nat, hi: nat, k: nat) returns (id: nat)
    requires Rewritten(orig, out, hook, table, render, lo, hi)
    requires k < |orig|
    ensures Pos(orig, k) < |out| && out[Pos(orig, k)] == orig[k]
    ensures Start(orig, k) + StubLength(orig[k]) == Pos(orig, k)
    ensures Eligible(orig[k]) ==> render(orig[k].dest.pointee) in table
    ensures Eligible(orig[k]) ==>
              out[Start(orig, k)..Pos(orig, k)] == Stub(orig[k], hook, table[render(orig[k].dest.pointee)], id)
  {
    PlacementPos(orig, out, hook, table, render, lo, hi, k);
    id := 0;
    if Eligible(orig[k]) {
      id := PlacementStub(orig, out, hook, table, render, lo, hi, k);
    }
  }

  /** Where original instruction `k` lands, and that its stub fills the gap before it. */
  lemma {:induction false} PlacementPos(orig: seq<Inst>, out: seq<Inst>, hook: nat,
                                        table: map<Text, GlobalVariable>, render: Ty -> Text,
                                        lo: nat, hi: nat, k: nat)
    requires Rewritten(orig, out, hook, table, render, lo, hi)
    requires k < |orig|
    ensures Pos(orig, k) < |out| && out[Pos(orig, k)] == orig[k]
    ensures Start(orig, k) + StubLength(orig[k]) == Pos(orig, k)
    decreases k
  {
    if k > 0 {
      var rest := out[StubLength(orig[0]) + 1..];
      PlacementPos(orig[1..], rest, hook, table, render, HeadNext(orig[0], out, lo), hi, k - 1);
      PosShift(orig, k);
      assert orig[1..][k - 1] == orig[k];
      assert out[Pos(orig, k)] == rest[Pos(orig[1..], k - 1)];
    }
  }

  /** The rewritten block ends with the original block's last instruction. */
  lemma {:induction false} RewrittenEnd(orig: seq<Inst>, out: seq<Inst>, hook: nat,
                                        table: map<Text, GlobalVariable>, render: Ty -> Text,
                                        lo: nat, hi: nat)
    requires Rewritten(orig, out, hook, table, render, lo, hi) && orig != []
    ensures |out| == Pos(orig, |orig| - 1) + 1
    decreases |orig|
  {
    var n := StubLength(orig[0]);
    if |orig| > 1 {
      RewrittenEnd(orig[1..], out[n + 1..], hook, table, render, HeadNext(orig[0], out, lo), hi);
      PosShift(orig, |orig| - 1);
    } else {
      assert orig[1..] == [];
    }
  }

  /** The gap before eligible instruction `k` holds its stub, built from the table's global. */
  lemma {:induction false} PlacementStub(orig: seq<Inst>, out: seq<Inst>, hook: nat,
                                         table: map<Text, GlobalVariable>, render: Ty -> Text,
                                         lo: nat, hi: nat, k: nat) returns (id: nat)
    requires Rewritten(orig, out, hook, table, render, lo, hi)
    requires k < |orig| && Eligible(orig[k])
    ensures render(orig[k].dest.pointee) in table
    ensures Start(orig, k) <= Pos(orig, k) <= |out|
    ensures out[Start(orig, k)..Pos(orig, k)] == Stub(orig[k], hook, table[render(orig[k].dest.pointee)], id)
    decreases k
  {
    var n := StubLength(orig[0]);
    if k == 0 {
      id := HeadId(orig[0], out);
    } else {
      assert orig[1..][k - 1] == orig[k];
      id := PlacementStub(orig[1..], out[n + 1..], hook, table, render, HeadNext(orig[0], out, lo), hi, k - 1);
      PosShift(orig, k);
      SliceOfSuffix(out, n + 1, Start(orig[1..], k - 1), Pos(orig[1..], k - 1));
    }
  }

  /** A slice splits at any point inside it, and at its first element. */
  lemma SliceSplit<T>(s: seq<T>, c: nat, d: nat)
    requires c < d <= |s|
    ensures s[..d] == s[..c] + s[c..d] && s[c..d] == [s[c]] + s[c + 1..d]
  {
  }

  /** A slice of a suffix is a slice of the whole sequence, shifted. */
  lemma SliceOfSuffix<T>(s: seq<T>, d: nat, a: nat, b: nat)
    requires d <= |s| && a <= b <= |s| - d
    ensures s[d..][a..b] == s[d + a..d + b]
  {
  }

  /** Positions in the block after its first original instruction shift by that instruction and its stub. */
  lemma PosShift(orig: seq<Inst>, k: nat)
    requires 0 < k < |orig|
    ensures Pos(orig, k) == StubLength(orig[0]) + 1 + Pos(orig[1..], k - 1)
    ensures Start(orig, k) == StubLength(orig[0]) + 1 + Start(orig[1..], k - 1)
  {
    if k > 1 {
      assert Pos(orig, k - 1) == StubLength(orig[0]) + 1 + Pos(orig[1..], k - 2);
    }
  }

  /** Consecutive original instructions are one apart, plus the stub of the later one. */
  lemma {:induction false} PosStep(orig: seq<Inst>, k: nat)
    requires 0 < k < |orig|
    ensures Pos(orig, k) == Pos(orig, k - 1) + 1 + StubLength(orig[k])
    decreases k
  {
    assert orig[1..][k - 1] == orig[k];
    if k > 1 {
      PosStep(orig[1..], k - 1);
      PosShift(orig, k);
      PosShift(orig, k - 1);
    }
  }

  /**
   * Deduplication at the call sites: with an injective table, the hook calls
   * in front of two eligible casts pass the same type string exactly when the
   * casts' pointee types render to the same text.
   */
  lemma SharedTypeString(orig: seq<Inst>, out: seq<Inst>, hook: nat,
                         table: map<Text, GlobalVariable>, render: Ty -> Text,
                         lo: nat, hi: nat, k1: nat, k2: nat)
    requires Rewritten(orig, out, hook, table, render, lo, hi) && TableInjective(table)
    requires k1 < |orig| && k2 < |orig| && Eligible(orig[k1]) && Eligible(orig[k2])
    ensures 0 < Pos(orig, k1) < |out| && 0 < Pos(orig, k2) < |out|
    ensures out[Pos(orig, k1) - 1].Call? && |out[Pos(orig, k1) - 1].args| == 2
    ensures out[Pos(orig, k2) - 1].Call? && |out[Pos(orig, k2) - 1].args| == 2
    ensures out[Pos(orig, k1) - 1].args[1] == out[Pos(orig, k2) - 1].args[1]
            <==> render(orig[k1].dest.pointee) == render(orig[k2].dest.pointee)
  {
    var g1, _ := HookGlobal(orig, out, hook, table, render, lo, hi, k1);
    var g2, _ := HookGlobal(orig, out, hook, table, render, lo, hi, k2);
    assert g1 == g2 <==> render(orig[k1].dest.pointee) == render(orig[k2].dest.pointee);
  }

  /**
   * The hook call in front of eligible cast `k` passes the cast's operand as
   * `i8*` and the table's global for its rendered pointee type; `id` numbers
   * the re-cast in front of the call, when one is emitted.
   */
  lemma HookGlobal(orig: seq<Inst>, out: seq<Inst>, hook: nat,
                   table: map<Text, GlobalVariable>, render: Ty -> Text,
                   lo: nat, hi: nat, k: nat) returns (g: GlobalVariable, id: nat)
    requires Rewritten(orig, out, hook, table, render, lo, hi)
    requires k < |orig| && Eligible(orig[k])
    ensures render(orig[k].dest.pointee) in table && g == table[render(orig[k].dest.pointee)]
    ensures 0 < Pos(orig, k) < |out|
    ensures out[Pos(orig, k) - 1].Call? && out[Pos(orig, k) - 1].callee == hook
    ensures out[Pos(orig, k) - 1].args == [HookArg0(orig[k].src, id), StringStart(g)]
    ensures EmitsRecast(orig[k].src) ==>
              Pos(orig, k) >= 2 && out[Pos(orig, k) - 2] == BitCast(id, orig[k].src, I8Ptr)
  {
    id := Placement(orig, out, hook, table, render, lo, hi, k);
    var p := Pos(orig, k);
    var start := Start(orig, k);
    g := table[render(orig[k].dest.pointee)];
    assert out[p - 1] == out[start..p][p - 1 - start];
    if EmitsRecast(orig[k].src) {
      assert out[p - 2] == out[start..p][0];
    }
  }

  /**
   * The first argument is always an `i8*`: the operand itself when it already is
   * one, the folded constant cast of a constant, and otherwise the result of the
   * re-cast of the operand inserted in the same stub.
   */
  lemma StubFirstArgument(c: Inst, hook: nat, g: GlobalVariable, id: nat)
    requires Eligible(c)
    ensures var s := Stub(c, hook, g, id);
            s[|s| - 1] == HookCall(hook, HookArg0(c.src, id), g) &&
            TypeOf(HookArg0(c.src, id)) == I8Ptr &&
            (TypeOf(c.src) == I8Ptr ==> s == [HookCall(hook, c.src, g)]) &&
            (EmitsRecast(c.src) ==> s[0] == BitCast(id, c.src, I8Ptr) && HookArg0(c.src, id) == Reg(id, I8Ptr, BitCastOp))
  {
  }

  /**
   * An inserted re-cast passes the selection test itself. The pass does not
   * instrument it only because selection is a snapshot taken before insertion.
   */
  lemma RecastIsEligible(c: Inst, hook: nat, g: GlobalVariable, id: nat)
    requires Eligible(c) && EmitsRecast(c.src)
    ensures Eligible(Stub(c, hook, g, id)[0])
  {
  }
}
