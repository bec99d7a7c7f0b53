/** The shadow call stack (trace-runtime-stack.c:12-48). */
module CallStack {
  import opened Words

  const MAX_STACK_TRACE_DEPTH: nat := 8192

  datatype Frame = Frame(insnPc: Word, lnkPc: Word, targetPc: Word)

  datatype Trace = Trace(frames: seq<Frame>, damaged: bool)

  const EMPTY := Trace([], false)

  /** `trace_call_stack_jmp`. */
  function Jmp(t: Trace, f: Frame): Res<Trace> {
    if |t.frames| >= MAX_STACK_TRACE_DEPTH then Panic else Ok(t.(frames := t.frames + [f]))
  }

  /** `trace_call_stack_return`: an underflow is clamped and remembered. */
  function Return(t: Trace): Trace {
    if t.frames == [] then t.(damaged := true) else t.(frames := t.frames[..|t.frames| - 1])
  }

  datatype Event = Called(frame: Frame) | Returned

  function Apply(t: Trace, e: Event): Res<Trace> {
    match e
    case Called(f) => Jmp(t, f)
    case Returned => Ok(Return(t))
  }

  function WalkFrom(t: Trace, es: seq<Event>): Res<Trace> {
    if es == [] then Ok(t)
    else
      var t' :- WalkFrom(t, es[..|es| - 1]);
      Apply(t', es[|es| - 1])
  }

  function Walk(es: seq<Event>): Res<Trace> {
    WalkFrom(EMPTY, es)
  }

  // ---------- the walk it reflects ----------

  /** Calls minus returns. */
  function Balance(es: seq<Event>): int {
    if es == [] then 0 else Balance(es[..|es| - 1]) + (if es[|es| - 1].Called? then 1 else -1)
  }

  /** The lowest balance of any prefix, the empty one included. */
  function Lowest(es: seq<Event>): int {
    if es == [] then 0
    else
      var l := Lowest(es[..|es| - 1]);
      if Balance(es) < l then Balance(es) else l
  }

  lemma {:induction false} LowestIsMinimum(es: seq<Event>)
    ensures Lowest(es) <= 0
    ensures forall k | 0 <= k <= |es| :: Lowest(es) <= Balance(es[..k])
    ensures exists k :: 0 <= k <= |es| && Balance(es[..k]) == Lowest(es)
  {
    if es == [] {
      assert es[..0] == es;
    } else {
      var n := |es| - 1;
      LowestIsMinimum(es[..n]);
      assert es[..n + 1] == es;
      forall k | 0 <= k <= n
        ensures Lowest(es) <= Balance(es[..k])
      {
        assert es[..n][..k] == es[..k];
      }
      var k :| 0 <= k <= n && Balance(es[..n][..k]) == Lowest(es[..n]);
      assert es[..n][..k] == es[..k];
      if Balance(es) < Lowest(es[..n]) {
        assert Balance(es[..n + 1]) == Lowest(es);
      } else {
        assert Balance(es[..k]) == Lowest(es);
      }
    }
  }

  /** The depth of the reflected walk. */
  function Depth(es: seq<Event>): int {
    Balance(es) - Lowest(es)
  }

  /** The balance of the events after `i` and before `j`. */
  function Since(es: seq<Event>, i: nat, j: nat): int
    requires i < j <= |es|
  {
    Balance(es[i + 1..j])
  }

  /** The call at `i` has not been matched: from just after it on, returns
      never outnumber calls. */
  ghost predicate Unmatched(es: seq<Event>, i: nat)
    requires i < |es|
  {
    es[i].Called? && forall j | i < j <= |es| :: Since(es, i, j) >= 0
  }

  /** `idx` lists in order the positions of the unmatched calls. */
  ghost predicate LiveCalls(es: seq<Event>, idx: seq<nat>) {
    && (forall a | 0 <= a < |idx| :: idx[a] < |es| && Unmatched(es, idx[a]))
    && (forall a, b | 0 <= a < b < |idx| :: idx[a] < idx[b])
    && (forall i: nat | i < |es| && Unmatched(es, i) :: i in idx)
  }

  lemma {:induction false} BalanceSplit(es: seq<Event>, i: nat)
    requires i <= |es|
    ensures Balance(es) == Balance(es[..i]) + Balance(es[i..])
  {
    if i == |es| {
      assert es[..i] == es && es[i..] == [];
    } else {
      var n := |es| - 1;
      BalanceSplit(es[..n], i);
      assert es[..n][..i] == es[..i];
      assert es[i..][..n - i] == es[..n][i..];
    }
  }

  /** The balance of the first `j` events. */
  function Level(es: seq<Event>, j: nat): int
    requires j <= |es|
  {
    Balance(es[..j])
  }

  /** Unmatched in terms of prefix balances: the walk never again falls below
      the level the call raised it to. */
  lemma UnmatchedByLevel(es: seq<Event>, i: nat)
    requires i < |es|
    ensures Unmatched(es, i) <==>
            es[i].Called? && forall j | i < j <= |es| :: Level(es, j) > Level(es, i)
  {
    if es[i].Called? {
      forall j | i < j <= |es|
        ensures Level(es, j) == Level(es, i) + 1 + Since(es, i, j)
      {
        BalanceSplit(es[..j], i + 1);
        assert es[..j][..i + 1] == es[..i + 1] && es[..j][i + 1..] == es[i + 1..j];
        assert es[..i + 1][..i] == es[..i];
      }
    }
  }

  /** What the stack shows after `es`. */
  ghost predicate Reflects(es: seq<Event>, t: Trace, idx: seq<nat>) {
    && |t.frames| == |idx| == Depth(es)
    && (t.damaged <==> Lowest(es) < 0)
    && LiveCalls(es, idx)
    && (forall a | 0 <= a < |idx| :: es[idx[a]].Called? && t.frames[a] == es[idx[a]].frame)
    && (forall a | 0 <= a < |idx| :: Balance(es[..idx[a]]) == Lowest(es) + a)
  }

  lemma LevelSnoc(es: seq<Event>, e: Event, j: nat)
    requires j <= |es|
    ensures Level(es + [e], j) == Level(es, j)
    ensures Level(es + [e], |es| + 1) == Balance(es + [e])
  {
    assert (es + [e])[..j] == es[..j];
    assert (es + [e])[..|es| + 1] == es + [e];
  }

  /** One more event: only the level it reaches can close an open call. */
  lemma UnmatchedAfter(es: seq<Event>, e: Event, i: nat)
    requires i < |es|
    ensures Unmatched(es + [e], i) <==> Unmatched(es, i) && Balance(es + [e]) > Balance(es[..i])
  {
    hide Balance, Unmatched;
    var es' := es + [e];
    UnmatchedByLevel(es, i);
    UnmatchedByLevel(es', i);
    assert Level(es, i) == Balance(es[..i]);
    assert es'[i] == es[i];
    hide Level;
    forall j: nat | j <= |es|
      ensures Level(es', j) == Level(es, j)
    {
      LevelSnoc(es, e, j);
    }
    LevelSnoc(es, e, |es|);
    if Unmatched(es', i) {
      assert Level(es', |es| + 1) > Level(es', i);
      forall j | i < j <= |es|
        ensures Level(es, j) > Level(es, i)
      {
        assert Level(es', j) > Level(es', i);
      }
    }
  }

  lemma BalanceSnoc(es: seq<Event>, e: Event)
    ensures Balance(es + [e]) == Balance(es) + (if e.Called? then 1 else -1)
    ensures Lowest(es + [e]) == if Balance(es + [e]) < Lowest(es) then Balance(es + [e]) else Lowest(es)
    ensures Lowest(es) <= Balance(es) && Lowest(es) <= 0
  {
    assert (es + [e])[..|es|] == es;
    LowestIsMinimum(es);
    assert es[..|es|] == es;
  }

  lemma LiveAfterCall(es: seq<Event>, idx: seq<nat>, f: Frame)
    requires LiveCalls(es, idx)
    ensures LiveCalls(es + [Called(f)], idx + [|es|])
  {
    var es', idx' := es + [Called(f)], idx + [|es|];
    BalanceSnoc(es, Called(f));
    assert es'[..|es'|] == es' && es'[..|es|] == es;
    UnmatchedByLevel(es', |es|);
    forall i: nat | i < |es|
      ensures Unmatched(es', i) <==> Unmatched(es, i)
    {
      UnmatchedAfter(es, Called(f), i);
      if Unmatched(es, i) {
        UnmatchedByLevel(es, i);
        assert Level(es, |es|) > Level(es, i);
        assert es[..|es|] == es;
      }
    }
    hide Balance, Unmatched;
    forall i: nat | i < |es'| && Unmatched(es', i)
      ensures i in idx'
    {
      if i == |es| {
        assert idx'[|idx|] == i;
      } else {
        assert i in idx;
      }
    }
  }

  lemma ReflectsCall(es: seq<Event>, t: Trace, idx: seq<nat>, f: Frame)
    requires Reflects(es, t, idx)
    ensures Reflects(es + [Called(f)], t.(frames := t.frames + [f]), idx + [|es|])
  {
    var es', idx' := es + [Called(f)], idx + [|es|];
    LiveAfterCall(es, idx, f);
    BalanceSnoc(es, Called(f));
    hide Balance, Unmatched, Lowest, LiveCalls;
    forall a | 0 <= a < |idx'|
      ensures Balance(es'[..idx'[a]]) == Lowest(es') + a
    {
      if a < |idx| {
        assert idx[a] < |es| by { LiveBounded(es, idx, a); }
        assert es'[..idx'[a]] == es[..idx[a]];
      } else {
        assert es'[..|es|] == es;
      }
    }
    forall a | 0 <= a < |idx'|
      ensures es'[idx'[a]].Called? && (t.frames + [f])[a] == es'[idx'[a]].frame
    {
    }
  }

  lemma LiveBounded(es: seq<Event>, idx: seq<nat>, a: nat)
    requires LiveCalls(es, idx) && a < |idx|
    ensures idx[a] < |es|
  {
  }

  lemma UnmatchedAfterReturn(es: seq<Event>, i: nat)
    requires i <= |es|
    ensures Unmatched(es + [Returned], i) <==>
            i < |es| && Unmatched(es, i) && Balance(es[..i]) < Balance(es) - 1
  {
    BalanceSnoc(es, Returned);
    if i < |es| {
      UnmatchedAfter(es, Returned, i);
    }
  }

  lemma LiveAfterReturn(es: seq<Event>, t: Trace, idx: seq<nat>)
    requires Reflects(es, t, idx) && idx != []
    ensures LiveCalls(es + [Returned], idx[..|idx| - 1])
  {
    var es', idx' := es + [Returned], idx[..|idx| - 1];
    assert Balance(es) - 1 == Lowest(es) + |idx'|;
    hide Balance, Unmatched, Lowest;
    forall i: nat | i < |es'| && Unmatched(es', i)
      ensures i in idx'
    {
      UnmatchedAfterReturn(es, i);
      var a :| 0 <= a < |idx| && idx[a] == i;
      assert Balance(es[..idx[a]]) == Lowest(es) + a;
      assert idx'[a] == i;
    }
    forall a | 0 <= a < |idx'|
      ensures idx'[a] < |es'| && Unmatched(es', idx'[a])
    {
      assert Balance(es[..idx[a]]) == Lowest(es) + a;
      UnmatchedAfterReturn(es, idx[a]);
    }
  }

  lemma ReflectsUnderflow(es: seq<Event>, t: Trace)
    requires Reflects(es, t, [])
    ensures Reflects(es + [Returned], Return(t), [])
  {
    BalanceSnoc(es, Returned);
    hide Balance, Unmatched, Lowest;
    forall i: nat | i < |es| + 1
      ensures !Unmatched(es + [Returned], i)
    {
      UnmatchedAfterReturn(es, i);
    }
  }

  lemma ReflectsReturn(es: seq<Event>, t: Trace, idx: seq<nat>)
    requires Reflects(es, t, idx) && idx != []
    ensures Reflects(es + [Returned], Return(t), idx[..|idx| - 1])
  {
    var es', idx' := es + [Returned], idx[..|idx| - 1];
    LiveAfterReturn(es, t, idx);
    BalanceSnoc(es, Returned);
    hide Balance, Unmatched, Lowest, LiveCalls;
    forall a | 0 <= a < |idx'|
      ensures Balance(es'[..idx'[a]]) == Lowest(es') + a
      ensures es'[idx'[a]].Called? && Return(t).frames[a] == es'[idx'[a]].frame
    {
      LiveBounded(es, idx, a);
      assert es'[..idx[a]] == es[..idx[a]];
      assert es'[idx[a]] == es[idx[a]];
    }
  }

  /** For every event sequence that stays within the depth limit, the stack is
      the reflected walk: its depth, its damage flag and its live frames. */
  lemma {:induction false} StackIsReflectedWalk(es: seq<Event>) returns (idx: seq<nat>)
    requires Walk(es).Ok?
    ensures Reflects(es, Walk(es).value, idx)
  {
    if es == [] {
      idx := [];
    } else {
      var n := |es| - 1;
      var idx0 := StackIsReflectedWalk(es[..n]);
      var t := Walk(es[..n]).value;
      assert es == es[..n] + [es[n]];
      hide Reflects;
      match es[n] {
        case Called(f) =>
          ReflectsCall(es[..n], t, idx0, f);
          idx := idx0 + [n];
        case Returned =>
          if idx0 == [] {
            ReflectsUnderflow(es[..n], t);
            idx := [];
          } else {
            ReflectsReturn(es[..n], t, idx0);
            idx := idx0[..|idx0| - 1];
          }
      }
    }
  }

  /** The process ends exactly when some prefix of the walk is deeper than the
      table. */
  lemma {:induction false} WalkPanicsExactly(es: seq<Event>)
    ensures Walk(es).Ok? || Walk(es).Panic?
    ensures Walk(es).Ok? <==> forall k | 0 <= k <= |es| :: Depth(es[..k]) <= MAX_STACK_TRACE_DEPTH
  {
    if es == [] {
    } else {
      var n := |es| - 1;
      WalkPanicsExactly(es[..n]);
      forall k | 0 <= k <= n
        ensures es[..n][..k] == es[..k]
      {
      }
      assert es[..n + 1] == es;
      hide Balance, Lowest, LiveCalls;
      if Walk(es[..n]).Ok? {
        var idx := StackIsReflectedWalk(es[..n]);
        BalanceSnoc(es[..n], es[n]);
        assert es[..n] + [es[n]] == es;
        if Walk(es).Ok? {
          var idx' := StackIsReflectedWalk(es);
          assert Depth(es) <= MAX_STACK_TRACE_DEPTH;
        } else {
          assert Depth(es[..n + 1]) > MAX_STACK_TRACE_DEPTH;
        }
      } else {
        var k :| 0 <= k <= n && Depth(es[..n][..k]) > MAX_STACK_TRACE_DEPTH;
        assert Depth(es[..k]) > MAX_STACK_TRACE_DEPTH;
      }
    }
  }

  /** A walk no prefix of which returns more than it calls keeps the stack it
      starts from below its own frames, and does not damage it. */
  lemma {:induction false} StackBelowIsKept(t: Trace, es: seq<Event>, t': Trace)
    requires WalkFrom(t, es) == Ok(t') && Lowest(es) == 0
    ensures |t'.frames| == |t.frames| + Balance(es) && t.frames <= t'.frames && t'.damaged == t.damaged
  {
    if es == [] {
    } else {
      var n := |es| - 1;
      LowestIsMinimum(es[..n]);
      StackBelowIsKept(t, es[..n], WalkFrom(t, es[..n]).value);
    }
  }

  /** As many calls as returns, and never more returns: the stack is back. */
  predicate Balanced(es: seq<Event>) {
    Lowest(es) == 0 && Balance(es) == 0
  }

  lemma BalancedRestores(t: Trace, es: seq<Event>, t': Trace)
    requires WalkFrom(t, es) == Ok(t') && Balanced(es)
    ensures t' == t
  {
    StackBelowIsKept(t, es, t');
    hide Lowest, Balance, WalkFrom;
  }
}
