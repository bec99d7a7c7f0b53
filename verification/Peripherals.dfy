/** The remaining mutable structures: the handler lists of memory-mmio.c and
    the frame table of trace-runtime-stack.c. */
module Peripherals {
  import opened Words
  import Mmio
  import CallStack

  /** One of the three handler lists. */
  class HandlerList {
    var nodes: seq<Mmio.Node>

    constructor ()
      ensures nodes == []
    {
      nodes := [];
    }

    /** `mmio_append_node`: check every node, then prepend. */
    method Append(n: Mmio.Node) returns (ok: bool)
      modifies this
      ensures Mmio.Append(old(nodes), n) == if ok then Ok(nodes) else Panic
      ensures !ok ==> nodes == old(nodes)
    {
      for i := 0 to |nodes|
        invariant forall k | 0 <= k < i :: !nodes[k].Overlaps(n)
      {
        if nodes[i].Overlaps(n) {
          return false;
        }
      }
      nodes := [n] + nodes;
      ok := true;
    }

    /** `match_mmio_handler`: the first node that covers the address. */
    method Find(addr: Word, write: bool) returns (ok: bool, node: Option<Mmio.Node>)
      ensures Mmio.Dispatch(nodes, addr, write) == if ok then Ok(node) else Panic
    {
      if addr < Mmio.MMIO_PHY_BASE {
        return true, None;
      }
      for i := 0 to |nodes|
        invariant Mmio.Match(nodes, addr, write) == Mmio.Match(nodes[i..], addr, write)
      {
        assert nodes[i..][1..] == nodes[i + 1..];
        if nodes[i].Covers(addr, write) {
          return true, Some(nodes[i]);
        }
      }
      return false, None;
    }
  }

  class CallTrace {
    const traces: array<CallStack.Frame>
    var depth: nat
    var damaged: bool

    ghost predicate Valid()
      reads this
    {
      depth <= traces.Length == CallStack.MAX_STACK_TRACE_DEPTH
    }

    ghost function View(): CallStack.Trace
      requires Valid()
      reads this, traces
    {
      CallStack.Trace(traces[..depth], damaged)
    }

    constructor ()
      ensures Valid() && fresh(traces) && View() == CallStack.EMPTY
    {
      traces := new CallStack.Frame[CallStack.MAX_STACK_TRACE_DEPTH](_ => CallStack.Frame(0, 0, 0));
      depth, damaged := 0, false;
      new;
      assert traces[..depth] == [];
    }

    /** `trace_call_stack_jmp`. */
    method Jmp(f: CallStack.Frame) returns (ok: bool)
      requires Valid()
      modifies this, traces
      ensures Valid() && CallStack.Jmp(old(View()), f) == if ok then Ok(View()) else Panic
    {
      ok := depth < CallStack.MAX_STACK_TRACE_DEPTH;
      if ok {
        traces[depth] := f;
        depth := depth + 1;
        assert traces[..depth] == old(traces[..depth]) + [f];
      }
    }

    /** `trace_call_stack_return`. */
    method Return()
      requires Valid()
      modifies this
      ensures Valid() && View() == CallStack.Return(old(View()))
    {
      if depth == 0 {
        damaged := true;
      } else {
        depth := depth - 1;
        assert traces[..depth] == old(traces[..depth])[..depth];
      }
    }
  }
}
