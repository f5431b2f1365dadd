// The mallocazam module pass: hook synthesis, cast selection, deduplicated
// type strings and the insertion of hook calls in front of selected casts.

module Pass {
  import opened IR
  import opened TypeStrings
  import opened Rewrite

  /** The hook as `defineCastCatcherFunction` builds it: `void mallocazam(i8*, i8*)`, weak ODR, no-inline, not optimised, body `ret void`. */
  function HookDefinition(): Function {
    Function("mallocazam", [I8Ptr, I8Ptr], Void, WeakODRLinkage, {NoInline, OptimizeNone},
             [Block("mallocazam_entry", [RetVoid])])
  }

  /** The hook holds no cast, so a later run leaves its definition as it is. */
  lemma HookRewritten(fn': Function, hook: nat, t: map<Text, GlobalVariable>, render: Ty -> Text, lo: nat, hi: nat)
    requires FunctionRewritten(HookDefinition(), fn', hook, t, render, lo, hi)
    ensures fn' == HookDefinition()
  {
    var b := fn'.blocks[0];
    RewrittenNoneEligible([RetVoid], b.insts, hook, t, render, lo, hi);
    assert fn'.blocks == [Block("mallocazam_entry", [RetVoid])];
  }

  /**
   * The globals grew by appending, in order, one global per key in `ks`: the
   * keys new to the table, each once, with the global the table now records.
   */
  ghost predicate RecordedBy(g0: seq<GlobalVariable>, g1: seq<GlobalVariable>,
                             t0: map<Text, GlobalVariable>, t1: map<Text, GlobalVariable>, ks: seq<Text>)
  {
    |g1| == |g0| + |ks| && g1[..|g0|] == g0 && t0.Keys <= t1.Keys &&
    (forall i :: 0 <= i < |ks| ==> ks[i] in t1 && ks[i] !in t0 && g1[|g0| + i] == t1[ks[i]]) &&
    (forall s :: s in t1 && s !in t0 ==> s in ks) &&
    (forall i, j :: 0 <= i < j < |ks| ==> ks[i] != ks[j])
  }

  /** The globals grew by exactly one global per key new to the table. */
  ghost predicate Recorded(g0: seq<GlobalVariable>, g1: seq<GlobalVariable>,
                           t0: map<Text, GlobalVariable>, t1: map<Text, GlobalVariable>)
  {
    exists ks :: RecordedBy(g0, g1, t0, t1, ks)
  }

  /** The keys of `t1` are those of `t0` and the texts `r`, stated pointwise. */
  ghost predicate KeysGrown(t0: map<Text, GlobalVariable>, t1: map<Text, GlobalVariable>, r: set<Text>) {
    forall s :: s in t1 <==> s in t0 || s in r
  }

  /**
   * The table only gained entries, exactly for the texts `r` it lacked, and the
   * globals grew by one new global per gained entry.
   */
  ghost predicate Grown(g0: seq<GlobalVariable>, g1: seq<GlobalVariable>,
                        t0: map<Text, GlobalVariable>, t1: map<Text, GlobalVariable>, r: set<Text>)
  {
    Extends(t0, t1) && KeysGrown(t0, t1, r) && Recorded(g0, g1, t0, t1)
  }

  lemma GrownNone(g: seq<GlobalVariable>, t: map<Text, GlobalVariable>)
    ensures Grown(g, g, t, t, {})
  {
    RecordedNone(g, t);
  }

  lemma GrownTrans(g0: seq<GlobalVariable>, g1: seq<GlobalVariable>, g2: seq<GlobalVariable>,
                   t0: map<Text, GlobalVariable>, t1: map<Text, GlobalVariable>, t2: map<Text, GlobalVariable>,
                   r1: set<Text>, r2: set<Text>)
    requires Grown(g0, g1, t0, t1, r1) && Grown(g1, g2, t1, t2, r2)
    ensures Grown(g0, g2, t0, t2, r1 + r2)
  {
    RecordedTrans(g0, g1, g2, t0, t1, t2);
  }

  /** A table hit gains nothing. */
  lemma GrownHit(g: seq<GlobalVariable>, t: map<Text, GlobalVariable>, s: Text)
    requires s in t
    ensures Grown(g, g, t, t, {s})
  {
    RecordedNone(g, t);
  }

  /** A table miss gains one entry and one global. */
  lemma GrownMiss(g0: seq<GlobalVariable>, t0: map<Text, GlobalVariable>, s: Text, g: GlobalVariable)
    requires s !in t0
    ensures Grown(g0, g0 + [g], t0, t0[s := g], {s})
  {
    RecordedOne(g0, t0, s, g);
  }

  /** Every global of the table belongs to the module whose globals are `gs`. */
  ghost predicate TableIn(t: map<Text, GlobalVariable>, gs: seq<GlobalVariable>) {
    forall s :: s in t ==> t[s] in gs
  }

  lemma RecordedNone(g: seq<GlobalVariable>, t: map<Text, GlobalVariable>)
    ensures Recorded(g, g, t, t)
  {
    assert RecordedBy(g, g, t, t, []);
  }

  lemma RecordedOne(g0: seq<GlobalVariable>, t0: map<Text, GlobalVariable>, s: Text, g: GlobalVariable)
    requires s !in t0
    ensures Recorded(g0, g0 + [g], t0, t0[s := g])
  {
    assert RecordedBy(g0, g0 + [g], t0, t0[s := g], [s]);
  }

  lemma RecordedTrans(g0: seq<GlobalVariable>, g1: seq<GlobalVariable>, g2: seq<GlobalVariable>,
                      t0: map<Text, GlobalVariable>, t1: map<Text, GlobalVariable>, t2: map<Text, GlobalVariable>)
    requires Recorded(g0, g1, t0, t1) && Recorded(g1, g2, t1, t2) && Extends(t1, t2)
    ensures Recorded(g0, g2, t0, t2)
  {
    var ks1 :| RecordedBy(g0, g1, t0, t1, ks1);
    var ks2 :| RecordedBy(g1, g2, t1, t2, ks2);
    var ks := ks1 + ks2;
    assert g2[..|g0|] == g1[..|g1|][..|g0|];
    forall i | 0 <= i < |ks| ensures ks[i] in t2 && ks[i] !in t0 && g2[|g0| + i] == t2[ks[i]] {
      if i < |ks1| {
        assert ks[i] == ks1[i];
        assert g2[|g0| + i] == g2[..|g1|][|g0| + i];
      } else {
        assert ks[i] == ks2[i - |ks1|];
      }
    }
    forall s | s in t2 && s !in t0 ensures s in ks {
      if s in t1 {
        var i :| 0 <= i < |ks1| && ks1[i] == s;
        assert ks[i] == s;
      } else {
        var i :| 0 <= i < |ks2| && ks2[i] == s;
        assert ks[|ks1| + i] == s;
      }
    }
    forall i, j | 0 <= i < j < |ks| ensures ks[i] != ks[j] {
      if j < |ks1| {
        assert ks[i] == ks1[i] && ks[j] == ks1[j];
      } else if i >= |ks1| {
        assert ks[i] == ks2[i - |ks1|] && ks[j] == ks2[j - |ks1|];
      } else {
        assert ks[i] == ks1[i] && ks[j] == ks2[j - |ks1|];
      }
    }
    assert RecordedBy(g0, g2, t0, t2, ks);
  }

  /** The globals present before are still there, in place. */
  lemma RecordedPrefix(g0: seq<GlobalVariable>, g1: seq<GlobalVariable>,
                       t0: map<Text, GlobalVariable>, t1: map<Text, GlobalVariable>)
    requires Recorded(g0, g1, t0, t1)
    ensures |g0| <= |g1| && g1[..|g0|] == g0
  {
    var ks :| RecordedBy(g0, g1, t0, t1, ks);
  }

  /** Counting: the number of globals added is the number of keys added to the table. */
  lemma CreatedCount(g0: seq<GlobalVariable>, g1: seq<GlobalVariable>,
                     t0: map<Text, GlobalVariable>, t1: map<Text, GlobalVariable>)
    requires Recorded(g0, g1, t0, t1)
    ensures |g1| - |g0| == |t1.Keys| - |t0.Keys|
  {
    var ks :| RecordedBy(g0, g1, t0, t1, ks);
    DistinctCard(ks);
    var gained := set k | k in ks;
    assert gained == t1.Keys - t0.Keys by {
      forall s ensures s in gained <==> s in t1.Keys - t0.Keys {
        if s in gained {
          var i :| 0 <= i < |ks| && ks[i] == s;
        }
      }
    }
    CardDifference(t1.Keys, t0.Keys);
  }

  /**
   * The number of globals created is the number of distinct texts in `r` that
   * were new to the table.
   */
  lemma GrownCount(g0: seq<GlobalVariable>, g1: seq<GlobalVariable>,
                   t0: map<Text, GlobalVariable>, t1: map<Text, GlobalVariable>, r: set<Text>)
    requires Grown(g0, g1, t0, t1, r)
    ensures |g1| - |g0| == |r - t0.Keys|
  {
    CreatedCount(g0, g1, t0, t1);
    assert t1.Keys - t0.Keys == r - t0.Keys;
    CardDifference(t1.Keys, t0.Keys);
  }

  lemma CardDifference<T>(a: set<T>, b: set<T>)
    requires b <= a
    ensures |a - b| == |a| - |b|
  {
    assert a == (a - b) + b;
  }

  /** A sequence without repetition has as many elements as its set. */
  lemma {:induction false} DistinctCard(ks: seq<Text>)
    requires forall i, j :: 0 <= i < j < |ks| ==> ks[i] != ks[j]
    ensures |(set k | k in ks)| == |ks|
  {
    if ks != [] {
      var last := ks[|ks| - 1];
      var init := ks[..|ks| - 1];
      DistinctCard(init);
      assert ks == init + [last];
      assert (set k | k in ks) == (set k | k in init) + {last};
      assert last !in (set k | k in init) by {
        forall i | 0 <= i < |init| ensures init[i] != last {
          assert init[i] == ks[i];
        }
      }
    }
  }

  lemma RecordedTableIn(g0: seq<GlobalVariable>, g1: seq<GlobalVariable>,
                        t0: map<Text, GlobalVariable>, t1: map<Text, GlobalVariable>)
    requires Recorded(g0, g1, t0, t1) && Extends(t0, t1) && TableIn(t0, g0)
    ensures TableIn(t1, g1)
  {
    var ks :| RecordedBy(g0, g1, t0, t1, ks);
    forall s | s in t1 ensures t1[s] in g1 {
      if s in t0 {
        var i :| 0 <= i < |g0| && g0[i] == t0[s];
        assert g1[i] == g0[i];
      } else {
        var i :| 0 <= i < |ks| && ks[i] == s;
        assert g1[|g0| + i] == t1[s];
      }
    }
  }

  /**
   * The selection loop: the positions, in block order, of exactly the eligible
   * casts of the block, taken before anything is inserted.
   */
  method CollectCasts(insts: seq<Inst>) returns (casts: seq<nat>)
    ensures Selection(insts, casts)
  {
    casts := [];
    for k := 0 to |insts|
      invariant forall j :: 0 <= j < |casts| ==> casts[j] < k && Eligible(insts[casts[j]])
      invariant forall j, j' :: 0 <= j < j' < |casts| ==> casts[j] < casts[j']
      invariant forall k' :: 0 <= k' < k && Eligible(insts[k']) ==> k' in casts
    {
      if insts[k].BitCast? {
        var cast := insts[k];
        if cast.dest.Ptr? && TypeOf(cast.src).Ptr? && !IsAllocaResult(cast.src) {
          casts := casts + [k];
        }
      }
    }
  }

  /**
   * `casts` lists, in increasing order, the positions of exactly the eligible
   * instructions of `insts`.
   */
  ghost predicate Selection(insts: seq<Inst>, casts: seq<nat>) {
    (forall j :: 0 <= j < |casts| ==> casts[j] < |insts| && Eligible(insts[casts[j]])) &&
    (forall j, j' :: 0 <= j < j' < |casts| ==> casts[j] < casts[j']) &&
    (forall k :: 0 <= k < |insts| && Eligible(insts[k]) ==> k in casts)
  }

  /** No selected position lies strictly between the selections `j - 1` and `j`. */
  lemma CastsOutsideGap(casts: seq<nat>, lo: int, hi: int, j: nat, i: nat)
    requires forall j, j' :: 0 <= j < j' < |casts| ==> casts[j] < casts[j']
    requires j <= |casts| && i < |casts|
    requires j == 0 ==> lo == -1
    requires j > 0 ==> lo == casts[j - 1]
    requires j < |casts| ==> hi == casts[j]
    ensures casts[i] <= lo || hi <= casts[i]
  {
    if i < j {
      if i < j - 1 {
        assert casts[i] < casts[j - 1];
      }
    } else {
      if i > j {
        assert casts[j] < casts[i];
      }
    }
  }

  /** Between a selected cast and the next one (or the end of the block) nothing is eligible. */
  lemma NoEligibleBetween(insts: seq<Inst>, casts: seq<nat>, lo: int, j: nat)
    requires forall j :: 0 <= j < |casts| ==> casts[j] < |insts|
    requires forall j, j' :: 0 <= j < j' < |casts| ==> casts[j] < casts[j']
    requires forall k :: 0 <= k < |insts| && Eligible(insts[k]) ==> k in casts
    requires j <= |casts|
    requires -1 <= lo && (if j == 0 then lo == -1 else lo == casts[j - 1])
    ensures var hi := if j < |casts| then casts[j] else |insts|;
            lo < hi && NoneEligible(insts[lo + 1..hi])
  {
    var hi := if j < |casts| then casts[j] else |insts|;
    if j > 0 && j < |casts| {
      assert casts[j - 1] < casts[j];
    }
    forall x | lo < x < hi ensures x !in casts {
      forall i | 0 <= i < |casts| ensures casts[i] != x {
        CastsOutsideGap(casts, lo, hi, j, i);
      }
    }
    var gap := insts[lo + 1..hi];
    forall k | 0 <= k < |gap| ensures !Eligible(gap[k]) {
      assert gap[k] == insts[lo + 1 + k];
    }
  }

  /**
   * One turn of the insertion loop: the block rewritten up to the selected cast
   * at `c`, then the stub, the cast and the unselected stretch up to the next
   * selection `d'`, is the block rewritten up to `d'`.
   */
  lemma InsertionStep(insts: seq<Inst>, c: nat, d': nat, done: seq<Inst>, hook: nat,
                      t1: map<Text, GlobalVariable>, t2: map<Text, GlobalVariable>, render: Ty -> Text,
                      n0: nat, id: nat, hi: nat, g: GlobalVariable)
    requires c < d' <= |insts| && Eligible(insts[c]) && NoneEligible(insts[c + 1..d'])
    requires Rewritten(insts[..c], done, hook, t1, render, n0, id)
    requires Extends(t1, t2) && render(insts[c].dest.pointee) in t2 && g == t2[render(insts[c].dest.pointee)]
    requires hi == if EmitsRecast(insts[c].src) then id + 1 else id
    ensures Rewritten(insts[..d'], done + Stub(insts[c], hook, g, id) + insts[c..d'], hook, t2, render, n0, hi)
  {
    var cast, gap := insts[c], insts[c + 1..d'];
    var stub := Stub(cast, hook, g, id);
    var pre, tail := insts[..c], [cast] + gap;
    SliceSplit(insts, c, d');
    TailStep(cast, gap, hook, t2, render, id, hi, g);
    RewrittenMono(pre, done, hook, t1, t2, render, n0, id, n0, id);
    RewrittenAppend(pre, done, tail, stub + tail, hook, t2, render, n0, id, hi);
    assert done + (stub + tail) == done + stub + insts[c..d'];
  }

  /** A selected cast with its stub in front, followed by an unselected stretch, is rewritten. */
  lemma TailStep(cast: Inst, gap: seq<Inst>, hook: nat, t: map<Text, GlobalVariable>, render: Ty -> Text,
                 id: nat, hi: nat, g: GlobalVariable)
    requires Eligible(cast) && NoneEligible(gap)
    requires render(cast.dest.pointee) in t && g == t[render(cast.dest.pointee)]
    requires hi == if EmitsRecast(cast.src) then id + 1 else id
    ensures Rewritten([cast] + gap, Stub(cast, hook, g, id) + ([cast] + gap), hook, t, render, id, hi)
  {
    var stub := Stub(cast, hook, g, id);
    RewrittenSingle(cast, hook, t, render, id, id, hi);
    RewrittenUnchanged(gap, hook, t, render, hi);
    RewrittenAppend([cast], stub + [cast], gap, gap, hook, t, render, id, hi, hi);
    assert stub + [cast] + gap == stub + ([cast] + gap);
  }

  /** The renderings up to the next selection `d'` add the one of the cast at `c`. */
  lemma RenderingsStep(insts: seq<Inst>, c: nat, d': nat, render: Ty -> Text)
    requires c < d' <= |insts| && Eligible(insts[c]) && NoneEligible(insts[c + 1..d'])
    ensures Renderings(insts[..d'], render) == Renderings(insts[..c], render) + {render(insts[c].dest.pointee)}
  {
    var cast := insts[c];
    var pre, gap := insts[..c], insts[c + 1..d'];
    assert pre + [cast] + gap == insts[..d'];
    RenderingsAppend(pre, [cast], render);
    RenderingsAppend(pre + [cast], gap, render);
    RenderingsNone(gap, render);
    assert Renderings([cast], render) == {render(cast.dest.pointee)} by {
      assert [cast][..0] == [];
    }
  }

  /**
   * Inserting `stub` before position `c + offset` of a block whose tail from
   * there is `insts[c..]` shifts that tail by `|stub|`.
   */
  lemma Splice(insts: seq<Inst>, c: nat, d': nat, offset: nat, before: seq<Inst>, out: seq<Inst>, stub: seq<Inst>)
    requires c < d' <= |insts| && c + offset <= |before| && before[c + offset..] == insts[c..]
    requires out == before[..c + offset] + stub + before[c + offset..]
    ensures d' + offset + |stub| <= |out|
    ensures out[..d' + offset + |stub|] == before[..c + offset] + stub + insts[c..d']
    ensures out[d' + offset + |stub|..] == insts[d'..]
  {
    var n := c + offset + |stub|;
    assert out[n..] == insts[c..];
    assert out[..n] == before[..c + offset] + stub;
    assert out[n..][..d' - c] == insts[c..d'];
  }

  /**
   * The block invariant carried over one selected cast `c`: after inserting its
   * stub, the block is rewritten up to the next selection `d'` and unchanged after it.
   */
  lemma BlockStep(insts: seq<Inst>, c: nat, d': nat, offset: nat, before: seq<Inst>, out: seq<Inst>,
                  hook: nat, t1: map<Text, GlobalVariable>, t2: map<Text, GlobalVariable>, render: Ty -> Text,
                  n0: nat, id: nat, hi: nat, g: GlobalVariable)
    requires c < d' <= |insts| && Eligible(insts[c]) && NoneEligible(insts[c + 1..d'])
    requires c + offset <= |before| && before[c + offset..] == insts[c..]
    requires Rewritten(insts[..c], before[..c + offset], hook, t1, render, n0, id)
    requires out == before[..c + offset] + Stub(insts[c], hook, g, id) + before[c + offset..]
    requires Extends(t1, t2) && render(insts[c].dest.pointee) in t2 && g == t2[render(insts[c].dest.pointee)]
    requires hi == if EmitsRecast(insts[c].src) then id + 1 else id
    ensures d' + offset + StubLength(insts[c]) <= |out|
    ensures out[d' + offset + StubLength(insts[c])..] == insts[d'..]
    ensures Rewritten(insts[..d'], out[..d' + offset + StubLength(insts[c])], hook, t2, render, n0, hi)
    ensures Renderings(insts[..d'], render) == Renderings(insts[..c], render) + {render(insts[c].dest.pointee)}
  {
    var stub := Stub(insts[c], hook, g, id);
    Splice(insts, c, d', offset, before, out, stub);
    InsertionStep(insts, c, d', before[..c + offset], hook, t1, t2, render, n0, id, hi, g);
    RenderingsStep(insts, c, d', render);
  }

  /** How far the insertion loop has got after `j` selections: the next selected position, or the end. */
  function Reached(insts: seq<Inst>, casts: seq<nat>, j: nat): nat {
    if j < |casts| && casts[j] <= |insts| then casts[j] else |insts|
  }

  /**
   * The insertion loop's invariant after `j` selections, with `offset` instructions
   * inserted so far: the block is rewritten up to the next selection and unchanged from it on.
   */
  ghost predicate BlockProgress(insts: seq<Inst>, casts: seq<nat>, j: nat, out: seq<Inst>, offset: nat,
                                hook: nat, table: map<Text, GlobalVariable>, render: Ty -> Text, lo: nat, hi: nat)
  {
    var d := Reached(insts, casts, j);
    d + offset <= |out| && out[d + offset..] == insts[d..] &&
    Rewritten(insts[..d], out[..d + offset], hook, table, render, lo, hi)
  }

  lemma BlockStart(insts: seq<Inst>, casts: seq<nat>, hook: nat, table: map<Text, GlobalVariable>,
                   render: Ty -> Text, lo: nat)
    requires Selection(insts, casts)
    ensures BlockProgress(insts, casts, 0, insts, 0, hook, table, render, lo, lo)
    ensures Renderings(insts[..Reached(insts, casts, 0)], render) == {}
  {
    NoEligibleBetween(insts, casts, -1, 0);
    var d := Reached(insts, casts, 0);
    RewrittenUnchanged(insts[..d], hook, table, render, lo);
    RenderingsNone(insts[..d], render);
  }

  /** The next selected cast sits, untouched, `offset` places further on. */
  lemma NextCast(insts: seq<Inst>, casts: seq<nat>, j: nat, out: seq<Inst>, offset: nat,
                 hook: nat, table: map<Text, GlobalVariable>, render: Ty -> Text, lo: nat, hi: nat)
    requires Selection(insts, casts) && j < |casts|
    requires BlockProgress(insts, casts, j, out, offset, hook, table, render, lo, hi)
    ensures casts[j] + offset < |out| && out[casts[j] + offset] == insts[casts[j]] && Eligible(insts[casts[j]])
  {
    var d := casts[j];
    assert out[d + offset..][0] == insts[d..][0];
  }

  lemma BlockAdvance(insts: seq<Inst>, casts: seq<nat>, j: nat, out: seq<Inst>, out': seq<Inst>, offset: nat,
                     offset': nat, hook: nat, t1: map<Text, GlobalVariable>, t2: map<Text, GlobalVariable>, render: Ty -> Text,
                     lo: nat, id: nat, hi: nat, g: GlobalVariable)
    requires Selection(insts, casts) && j < |casts|
    requires BlockProgress(insts, casts, j, out, offset, hook, t1, render, lo, id)
    requires out' == out[..casts[j] + offset] + Stub(insts[casts[j]], hook, g, id) + out[casts[j] + offset..]
    requires Extends(t1, t2) && render(insts[casts[j]].dest.pointee) in t2
    requires g == t2[render(insts[casts[j]].dest.pointee)]
    requires hi == if EmitsRecast(insts[casts[j]].src) then id + 1 else id
    requires offset' == offset + StubLength(insts[casts[j]])
    ensures BlockProgress(insts, casts, j + 1, out', offset', hook, t2, render, lo, hi)
    ensures Renderings(insts[..Reached(insts, casts, j + 1)], render) ==
            Renderings(insts[..Reached(insts, casts, j)], render) + {render(insts[casts[j]].dest.pointee)}
  {
    var c := casts[j];
    NoEligibleBetween(insts, casts, c, j + 1);
    var d' := Reached(insts, casts, j + 1);
    BlockStep(insts, c, d', offset, out, out', hook, t1, t2, render, lo, id, hi, g);
  }

  lemma BlockEnd(insts: seq<Inst>, casts: seq<nat>, out: seq<Inst>, offset: nat,
                 hook: nat, table: map<Text, GlobalVariable>, render: Ty -> Text, lo: nat, hi: nat)
    requires BlockProgress(insts, casts, |casts|, out, offset, hook, table, render, lo, hi)
    ensures Rewritten(insts, out, hook, table, render, lo, hi)
    ensures Renderings(insts[..Reached(insts, casts, |casts|)], render) == Renderings(insts, render)
  {
    assert out[..|insts| + offset] == out;
    assert insts[..|insts|] == insts;
  }

  /**
   * The block loop's invariant after `b` blocks: those are rewritten, the
   * rest are still the function's own.
   */
  ghost predicate FunctionProgress(fn: Function, blocks: seq<Block>, b: nat, hook: nat,
                                   table: map<Text, GlobalVariable>, render: Ty -> Text, lo: nat, hi: nat)
  {
    |blocks| == |fn.blocks| && b <= |blocks| &&
    (forall j :: b <= j < |blocks| ==> blocks[j] == fn.blocks[j]) &&
    (forall j :: 0 <= j < b ==>
       blocks[j].name == fn.blocks[j].name &&
       Rewritten(fn.blocks[j].insts, blocks[j].insts, hook, table, render, lo, hi))
  }

  lemma FunctionAdvance(fn: Function, blocks: seq<Block>, b: nat, insts: seq<Inst>, hook: nat,
                        t1: map<Text, GlobalVariable>, t2: map<Text, GlobalVariable>, render: Ty -> Text,
                        lo: nat, mid: nat, hi: nat)
    requires FunctionProgress(fn, blocks, b, hook, t1, render, lo, mid) && b < |blocks|
    requires Extends(t1, t2) && lo <= mid
    requires Rewritten(blocks[b].insts, insts, hook, t2, render, mid, hi)
    ensures FunctionProgress(fn, blocks[b := blocks[b].(insts := insts)], b + 1, hook, t2, render, lo, hi)
    ensures BlocksRenderings(fn.blocks[..b + 1], render) ==
            BlocksRenderings(fn.blocks[..b], render) + Renderings(fn.blocks[b].insts, render)
  {
    RewrittenRange(blocks[b].insts, insts, hook, t2, render, mid, hi);
    var blocks' := blocks[b := blocks[b].(insts := insts)];
    forall j | 0 <= j < b + 1
      ensures Rewritten(fn.blocks[j].insts, blocks'[j].insts, hook, t2, render, lo, hi)
    {
      if j < b {
        RewrittenMono(fn.blocks[j].insts, blocks[j].insts, hook, t1, t2, render, lo, mid, lo, hi);
      } else {
        RewrittenMono(fn.blocks[j].insts, insts, hook, t2, t2, render, mid, hi, lo, hi);
      }
    }
    assert fn.blocks[..b + 1][..b] == fn.blocks[..b];
  }

  lemma FunctionEnd(fn: Function, blocks: seq<Block>, hook: nat,
                    table: map<Text, GlobalVariable>, render: Ty -> Text, lo: nat, hi: nat)
    requires FunctionProgress(fn, blocks, |blocks|, hook, table, render, lo, hi)
    ensures FunctionRewritten(fn, fn.(blocks := blocks), hook, table, render, lo, hi)
    ensures BlocksRenderings(fn.blocks[..|blocks|], render) == BlocksRenderings(fn.blocks, render)
  {
    assert fn.blocks[..|blocks|] == fn.blocks;
  }

  /** Inserting the re-cast (if any) and then the hook call in front of position `p` splices in the stub. */
  lemma SpliceStub(out: seq<Inst>, p: nat, cast: Inst, hook: nat, g: GlobalVariable, id: nat)
    requires Eligible(cast) && p <= |out|
    ensures var call := Call(hook, [HookArg0(cast.src, id), StringStart(g)]);
            var o1 := out[..p] + [BitCast(id, cast.src, I8Ptr)] + out[p..];
            EmitsRecast(cast.src) ==> o1[..p + 1] + [call] + o1[p + 1..] == out[..p] + Stub(cast, hook, g, id) + out[p..]
    ensures var call := Call(hook, [HookArg0(cast.src, id), StringStart(g)]);
            !EmitsRecast(cast.src) ==> out[..p] + [call] + out[p..] == out[..p] + Stub(cast, hook, g, id) + out[p..]
  {
    var call := Call(hook, [HookArg0(cast.src, id), StringStart(g)]);
    if EmitsRecast(cast.src) {
      var o1 := out[..p] + [BitCast(id, cast.src, I8Ptr)] + out[p..];
      assert o1[..p + 1] == out[..p] + [BitCast(id, cast.src, I8Ptr)];
      assert o1[p + 1..] == out[p..];
    }
  }

  /** The pass object; its type-string table persists across runs on different modules. */
  class Mallocazam {
    var stringValueMap: map<Text, GlobalVariable>

    /** Every entry is the type-string global for its key, and distinct keys have distinct globals. */
    ghost predicate Valid()
      reads this
    {
      (forall s :: s in stringValueMap ==> IsTypeString(stringValueMap[s], s)) &&
      TableInjective(stringValueMap)
    }

    constructor ()
      ensures Valid() && stringValueMap == map[]
    {
      stringValueMap := map[];
    }

    /** Adds the hook function to the module, unconditionally, and returns its number. */
    method DefineCastCatcherFunction(m: Module) returns (hook: nat)
      modifies m`functions
      ensures hook == |old(m.functions)|
      ensures m.functions == old(m.functions) + [HookDefinition()]
    {
      hook := |m.functions|;
      m.functions := m.functions + [Function("mallocazam", [I8Ptr, I8Ptr], Void, WeakODRLinkage, {}, [])];
      var fn := m.functions[hook];
      fn := fn.(blocks := [Block("mallocazam_entry", [])]);
      fn := fn.(attrs := fn.attrs + {NoInline});
      fn := fn.(attrs := fn.attrs + {OptimizeNone});
      fn := fn.(blocks := [fn.blocks[0].(insts := fn.blocks[0].insts + [RetVoid])]);
      assert fn.attrs == {NoInline, OptimizeNone};
      assert fn.blocks[0].insts == [RetVoid];
      m.functions := m.functions[hook := fn];
    }

    /**
     * Looks the rendered type up in the table; on a miss, creates one new
     * type-string global in the module and records it under that text.
     */
    method GetOrCreateGlobalTypeString(ty: Ty, m: Module, render: Ty -> Text) returns (g: GlobalVariable)
      requires Valid()
      modifies this`stringValueMap, m`globals
      ensures Valid()
      ensures render(ty) in stringValueMap && g == stringValueMap[render(ty)] && IsTypeString(g, render(ty))
      ensures render(ty) in old(stringValueMap) ==>
                stringValueMap == old(stringValueMap) && m.globals == old(m.globals)
      ensures render(ty) !in old(stringValueMap) ==>
                fresh(g) && stringValueMap == old(stringValueMap)[render(ty) := g] && m.globals == old(m.globals) + [g]
    {
      var str := render(ty);
      if str in stringValueMap {
        return stringValueMap[str];
      }
      g := new GlobalVariable(".str", Array(|str| + 1, I8), true, PrivateLinkage, 1, true, StringInitializer(str));
      m.globals := m.globals + [g];
      stringValueMap := stringValueMap[str := g];
    }

    /**
     * The body of the insertion loop for one selected cast at position `p`:
     * the re-cast of its operand to `i8*` when needed, the type string, and the
     * hook call, each inserted immediately before the cast.
     */
    method InstrumentCast(out: seq<Inst>, p: nat, cast: Inst, hook: nat, m: Module, render: Ty -> Text)
      returns (out': seq<Inst>, g: GlobalVariable)
      requires Valid() && p < |out| && out[p] == cast && Eligible(cast)
      modifies this`stringValueMap, m`globals, m`nextId
      ensures Valid()
      ensures render(cast.dest.pointee) in stringValueMap && g == stringValueMap[render(cast.dest.pointee)]
      ensures out' == out[..p] + Stub(cast, hook, g, old(m.nextId)) + out[p..]
      ensures m.nextId == if EmitsRecast(cast.src) then old(m.nextId) + 1 else old(m.nextId)
      ensures Grown(old(m.globals), m.globals, old(stringValueMap), stringValueMap, {render(cast.dest.pointee)})
      ensures forall i :: |old(m.globals)| <= i < |m.globals| ==> fresh(m.globals[i])
    {
      out' := out;
      var at := p;
      var arg0 := cast.src;
      if TypeOf(arg0) != I8Ptr {
        if IsConstant(arg0) {
          arg0 := ConstCast(arg0, I8Ptr);
        } else {
          out' := out'[..at] + [BitCast(m.nextId, arg0, I8Ptr)] + out'[at..];
          arg0 := Reg(m.nextId, I8Ptr, BitCastOp);
          m.nextId := m.nextId + 1;
          at := at + 1;
        }
      }
      ghost var id := old(m.nextId);
      assert arg0 == HookArg0(cast.src, id);
      g := GetOrCreateGlobalTypeString(cast.dest.pointee, m, render);
      if render(cast.dest.pointee) in old(stringValueMap) {
        GrownHit(m.globals, stringValueMap, render(cast.dest.pointee));
      } else {
        GrownMiss(old(m.globals), old(stringValueMap), render(cast.dest.pointee), g);
      }
      SpliceStub(out, p, cast, hook, g, id);
      out' := out'[..at] + [Call(hook, [arg0, StringStart(g)])] + out'[at..];
    }

    /**
     * One turn of the insertion loop: instruments the `j`-th selected cast, which
     * sits `offset` places further on in `out` than in the original block.
     */
    method InstrumentNext(insts: seq<Inst>, casts: seq<nat>, j: nat, out: seq<Inst>, offset: nat,
                          hook: nat, m: Module, render: Ty -> Text, ghost n0: nat)
      returns (out': seq<Inst>, offset': nat)
      requires Valid() && Selection(insts, casts) && j < |casts|
      requires BlockProgress(insts, casts, j, out, offset, hook, stringValueMap, render, n0, m.nextId)
      modifies this`stringValueMap, m`globals, m`nextId
      ensures Valid() && old(m.nextId) <= m.nextId
      ensures BlockProgress(insts, casts, j + 1, out', offset', hook, stringValueMap, render, n0, m.nextId)
      ensures Grown(old(m.globals), m.globals, old(stringValueMap), stringValueMap, {render(insts[casts[j]].dest.pointee)})
      ensures Renderings(insts[..Reached(insts, casts, j + 1)], render) ==
              Renderings(insts[..Reached(insts, casts, j)], render) + {render(insts[casts[j]].dest.pointee)}
      ensures forall i :: |old(m.globals)| <= i < |m.globals| ==> fresh(m.globals[i])
    {
      NextCast(insts, casts, j, out, offset, hook, stringValueMap, render, n0, m.nextId);
      ghost var t1, id := stringValueMap, m.nextId;
      var g;
      out', g := InstrumentCast(out, casts[j] + offset, insts[casts[j]], hook, m, render);
      offset' := offset + StubLength(insts[casts[j]]);
      BlockAdvance(insts, casts, j, out, out', offset, offset', hook, t1, stringValueMap, render, n0, id, m.nextId, g);
    }

    /**
     * The body of the block loop of `runOnModule`: select the casts, then, for
     * each in order, insert the optional re-cast and the hook call in front of it.
     */
    method InstrumentBlock(insts: seq<Inst>, hook: nat, m: Module, render: Ty -> Text) returns (out: seq<Inst>)
      requires Valid()
      modifies this`stringValueMap, m`globals, m`nextId
      ensures Valid()
      ensures Rewritten(insts, out, hook, stringValueMap, render, old(m.nextId), m.nextId)
      ensures Grown(old(m.globals), m.globals, old(stringValueMap), stringValueMap, Renderings(insts, render))
      ensures forall i :: |old(m.globals)| <= i < |m.globals| ==> fresh(m.globals[i])
      ensures old(m.nextId) <= m.nextId
    {
      var casts := CollectCasts(insts);
      ghost var t0, n0 := stringValueMap, m.nextId;
      out := insts;
      var offset: nat := 0;
      BlockStart(insts, casts, hook, t0, render, n0);
      GrownNone(m.globals, t0);
      for j := 0 to |casts|
        invariant BlockProgress(insts, casts, j, out, offset, hook, stringValueMap, render, n0, m.nextId)
        invariant Valid() && n0 <= m.nextId
        invariant Grown(old(m.globals), m.globals, t0, stringValueMap, Renderings(insts[..Reached(insts, casts, j)], render))
        invariant forall i :: |old(m.globals)| <= i < |m.globals| ==> fresh(m.globals[i])
      {
        ghost var g1, t1 := m.globals, stringValueMap;
        out, offset := InstrumentNext(insts, casts, j, out, offset, hook, m, render, n0);
        GrownTrans(old(m.globals), g1, m.globals, t0, t1, stringValueMap,
                   Renderings(insts[..Reached(insts, casts, j)], render), {render(insts[casts[j]].dest.pointee)});
        RecordedPrefix(g1, m.globals, t1, stringValueMap);
        forall i | |old(m.globals)| <= i < |m.globals| ensures fresh(m.globals[i]) {
          if i < |g1| {
            assert m.globals[i] == g1[i];
          }
        }
      }
      BlockEnd(insts, casts, out, offset, hook, stringValueMap, render, n0, m.nextId);
    }

    /** The block loop of `runOnModule` over one function. */
    method InstrumentFunction(fn: Function, hook: nat, m: Module, render: Ty -> Text) returns (fn': Function)
      requires Valid()
      modifies this`stringValueMap, m`globals, m`nextId
      ensures Valid()
      ensures FunctionRewritten(fn, fn', hook, stringValueMap, render, old(m.nextId), m.nextId)
      ensures Grown(old(m.globals), m.globals, old(stringValueMap), stringValueMap, BlocksRenderings(fn.blocks, render))
      ensures forall i :: |old(m.globals)| <= i < |m.globals| ==> fresh(m.globals[i])
      ensures old(m.nextId) <= m.nextId
    {
      ghost var t0 := stringValueMap;
      ghost var n0 := m.nextId;
      var blocks := fn.blocks;
      GrownNone(m.globals, t0);
      assert fn.blocks[..0] == [];
      for b := 0 to |blocks|
        invariant FunctionProgress(fn, blocks, b, hook, stringValueMap, render, n0, m.nextId)
        invariant Valid() && n0 <= m.nextId
        invariant Grown(old(m.globals), m.globals, t0, stringValueMap, BlocksRenderings(fn.blocks[..b], render))
        invariant forall i :: |old(m.globals)| <= i < |m.globals| ==> fresh(m.globals[i])
      {
        ghost var t1, g1, n1 := stringValueMap, m.globals, m.nextId;
        var insts := InstrumentBlock(blocks[b].insts, hook, m, render);
        FunctionAdvance(fn, blocks, b, insts, hook, t1, stringValueMap, render, n0, n1, m.nextId);
        GrownTrans(old(m.globals), g1, m.globals, t0, t1, stringValueMap,
                   BlocksRenderings(fn.blocks[..b], render), Renderings(fn.blocks[b].insts, render));
        RecordedPrefix(g1, m.globals, t1, stringValueMap);
        forall i | |old(m.globals)| <= i < |m.globals| ensures fresh(m.globals[i]) {
          if i < |g1| {
            assert m.globals[i] == g1[i];
          }
        }
        blocks := blocks[b := blocks[b].(insts := insts)];
      }
      fn' := fn.(blocks := blocks);
      FunctionEnd(fn, blocks, hook, stringValueMap, render, n0, m.nextId);
    }

    /** The function loop of `runOnModule`, over every function of the module. */
    method InstrumentFunctions(hook: nat, m: Module, render: Ty -> Text)
      requires Valid()
      modifies this`stringValueMap, m`functions, m`globals, m`nextId
      ensures Valid() && old(m.nextId) <= m.nextId
      ensures |m.functions| == |old(m.functions)|
      ensures forall f :: 0 <= f < |m.functions| ==>
                FunctionRewritten(old(m.functions)[f], m.functions[f], hook, stringValueMap, render, old(m.nextId), m.nextId)
      ensures Grown(old(m.globals), m.globals, old(stringValueMap), stringValueMap,
                    FunctionsRenderings(old(m.functions), render))
      ensures forall i :: |old(m.globals)| <= i < |m.globals| ==> fresh(m.globals[i])
    {
      ghost var t0, n0, fs0 := stringValueMap, m.nextId, m.functions;
      GrownNone(m.globals, t0);
      assert fs0[..0] == [];
      var f := 0;
      while f < |m.functions|
        invariant ModuleProgress(fs0, m.functions, f, hook, stringValueMap, render, n0, m.nextId)
        invariant Valid() && n0 <= m.nextId
        invariant Grown(old(m.globals), m.globals, t0, stringValueMap, FunctionsRenderings(fs0[..f], render))
        invariant forall i :: |old(m.globals)| <= i < |m.globals| ==> fresh(m.globals[i])
        decreases |m.functions| - f
      {
        ghost var t1, g1, n1 := stringValueMap, m.globals, m.nextId;
        var fn := InstrumentFunction(m.functions[f], hook, m, render);
        ModuleAdvance(fs0, m.functions, f, fn, hook, t1, stringValueMap, render, n0, n1, m.nextId);
        GrownTrans(old(m.globals), g1, m.globals, t0, t1, stringValueMap,
                   FunctionsRenderings(fs0[..f], render), BlocksRenderings(fs0[f].blocks, render));
        RecordedPrefix(g1, m.globals, t1, stringValueMap);
        forall i | |old(m.globals)| <= i < |m.globals| ensures fresh(m.globals[i]) {
          if i < |g1| {
            assert m.globals[i] == g1[i];
          }
        }
        m.functions := m.functions[f := fn];
        f := f + 1;
      }
      assert fs0[..f] == fs0;
    }

    /**
     * `runOnModule`: adds the hook, then instruments every block of every
     * function (the new hook included), and reports a change.
     */
    method RunOnModule(m: Module, render: Ty -> Text) returns (changed: bool)
      requires Valid() && m.Valid()
      modifies this`stringValueMap, m
      ensures Valid() && m.Valid()
      ensures changed
      ensures |m.functions| == |old(m.functions)| + 1 && m.functions[|old(m.functions)|] == HookDefinition()
      ensures forall f :: 0 <= f < |old(m.functions)| ==>
                FunctionRewritten(old(m.functions)[f], m.functions[f], |old(m.functions)|,
                                  stringValueMap, render, old(m.nextId), m.nextId)
      ensures forall f :: 0 <= f < |old(m.functions)| ==>
                FunctionKept(old(m.functions)[f], m.functions[f], |old(m.functions)|, old(m.nextId))
      ensures Grown(old(m.globals), m.globals, old(stringValueMap), stringValueMap,
                    FunctionsRenderings(old(m.functions), render))
      ensures forall i :: |old(m.globals)| <= i < |m.globals| ==> fresh(m.globals[i])
      ensures TableIn(old(stringValueMap), old(m.globals)) ==> TableIn(stringValueMap, m.globals)
      ensures old(m.nextId) <= m.nextId
    {
      ghost var fs := m.functions;
      var hook := DefineCastCatcherFunction(m);
      ghost var fs0 := m.functions;
      InstrumentFunctions(hook, m, render);
      ModuleFacts(fs, fs0, m.functions, hook, stringValueMap, render, old(m.nextId), m.nextId);
      if TableIn(old(stringValueMap), old(m.globals)) {
        RecordedTableIn(old(m.globals), m.globals, old(stringValueMap), stringValueMap);
      }
      changed := true;
    }
  }

  /**
   * The function loop's invariant after `f` functions: those are rewritten,
   * the rest are still the module's own.
   */
  ghost predicate ModuleProgress(fs0: seq<Function>, fs: seq<Function>, f: nat, hook: nat,
                                 table: map<Text, GlobalVariable>, render: Ty -> Text, lo: nat, hi: nat)
  {
    |fs| == |fs0| && f <= |fs| &&
    (forall j :: f <= j < |fs| ==> fs[j] == fs0[j]) &&
    (forall j :: 0 <= j < f ==> FunctionRewritten(fs0[j], fs[j], hook, table, render, lo, hi))
  }

  lemma ModuleAdvance(fs0: seq<Function>, fs: seq<Function>, f: nat, fn: Function, hook: nat,
                      t1: map<Text, GlobalVariable>, t2: map<Text, GlobalVariable>, render: Ty -> Text,
                      lo: nat, mid: nat, hi: nat)
    requires ModuleProgress(fs0, fs, f, hook, t1, render, lo, mid) && f < |fs|
    requires Extends(t1, t2) && lo <= mid <= hi
    requires FunctionRewritten(fs[f], fn, hook, t2, render, mid, hi)
    ensures ModuleProgress(fs0, fs[f := fn], f + 1, hook, t2, render, lo, hi)
    ensures FunctionsRenderings(fs0[..f + 1], render) ==
            FunctionsRenderings(fs0[..f], render) + BlocksRenderings(fs0[f].blocks, render)
  {
    var fs' := fs[f := fn];
    forall j | 0 <= j < f + 1 ensures FunctionRewritten(fs0[j], fs'[j], hook, t2, render, lo, hi) {
      if j < f {
        FunctionRewrittenMono(fs0[j], fs[j], hook, t1, t2, render, lo, mid, hi);
      } else {
        FunctionRewrittenWiden(fs0[j], fn, hook, t2, render, mid, lo, hi);
      }
    }
    assert fs0[..f + 1][..f] == fs0[..f];
  }

  /**
   * After the function loop: the hook is as built, and every original function
   * is rewritten, well formed, and gives back its original blocks.
   */
  lemma ModuleFacts(fs: seq<Function>, fs0: seq<Function>, fs1: seq<Function>, hook: nat,
                    table: map<Text, GlobalVariable>, render: Ty -> Text, lo: nat, hi: nat)
    requires fs0 == fs + [HookDefinition()] && hook == |fs| && lo <= hi
    requires forall f :: 0 <= f < |fs| ==> FunctionBelow(fs[f], |fs|, lo)
    requires |fs1| == |fs0|
    requires forall f :: 0 <= f < |fs1| ==> FunctionRewritten(fs0[f], fs1[f], hook, table, render, lo, hi)
    ensures fs1[hook] == HookDefinition()
    ensures forall f :: 0 <= f < |fs1| ==> FunctionBelow(fs1[f], |fs1|, hi)
    ensures forall f :: 0 <= f < |fs| ==> FunctionKept(fs[f], fs1[f], hook, lo)
  {
    assert fs0[hook] == HookDefinition();
    HookRewritten(fs1[hook], hook, table, render, lo, hi);
    forall f | 0 <= f < |fs1|
      ensures FunctionBelow(fs1[f], |fs1|, hi)
      ensures f < |fs| ==> FunctionKept(fs[f], fs1[f], hook, lo)
    {
      if f < |fs| {
        assert fs0[f] == fs[f];
        FunctionFacts(fs[f], fs1[f], hook, table, render, lo, hi);
      } else {
        assert fs1[f] == HookDefinition();
        assert BlockBelow([RetVoid], |fs1|, hi);
      }
    }
  }

  /** What the rewrite of a function in a well-formed module guarantees about each of its blocks. */
  lemma FunctionFacts(fn: Function, fn': Function, hook: nat, table: map<Text, GlobalVariable>,
                      render: Ty -> Text, lo: nat, hi: nat)
    requires FunctionBelow(fn, hook, lo)
    requires FunctionRewritten(fn, fn', hook, table, render, lo, hi)
    ensures FunctionBelow(fn', hook + 1, hi)
    ensures FunctionKept(fn, fn', hook, lo)
  {
    forall b | 0 <= b < |fn.blocks|
      ensures BlockBelow(fn'.blocks[b].insts, hook + 1, hi)
      ensures Strip(fn'.blocks[b].insts, hook, lo) == fn.blocks[b].insts
      ensures CountHookCalls(fn'.blocks[b].insts, hook) == CountEligible(fn.blocks[b].insts)
    {
      var orig := fn.blocks[b].insts;
      var out := fn'.blocks[b].insts;
      RewrittenRange(orig, out, hook, table, render, lo, hi);
      FunctionBelowMono(fn, hook, lo, hook + 1, hi);
      RewrittenBelow(orig, out, hook, table, render, lo, hi, hook + 1, hi);
      StripRewritten(orig, out, hook, table, render, lo, lo, hi);
      HookCallCount(orig, out, hook, table, render, lo, hi);
      NoHookCalls(orig, hook, lo);
    }
  }

  /** A function rewrite over a later identity range is one over a wider range. */
  lemma FunctionRewrittenWiden(fn: Function, fn': Function, hook: nat, table: map<Text, GlobalVariable>,
                               render: Ty -> Text, lo: nat, lo': nat, hi: nat)
    requires FunctionRewritten(fn, fn', hook, table, render, lo, hi) && lo' <= lo
    ensures FunctionRewritten(fn, fn', hook, table, render, lo', hi)
  {
    forall b | 0 <= b < |fn.blocks|
      ensures Rewritten(fn.blocks[b].insts, fn'.blocks[b].insts, hook, table, render, lo', hi)
    {
      RewrittenMono(fn.blocks[b].insts, fn'.blocks[b].insts, hook, table, table, render, lo, hi, lo', hi);
    }
  }
}
