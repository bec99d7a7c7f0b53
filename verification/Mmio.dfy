/** Memory-mapped devices (memory-mmio.c:38-54, 150-212): per-width lists of
    address ranges, searched front to back, extended at the front. */
module Mmio {
  import opened Words

  const MMIO_PHY_BASE := 0x8000_0000

  /** The callbacks the one device registers. */
  datatype Handler = AtaWrite8 | AtaWrite32 | AtaRead8 | AtaRead16 | AtaRead32

  datatype Node = Node(write: bool, start: Word, end: Word, handler: Handler) {
    predicate Covers(addr: Word, w: bool) {
      write == w && start <= addr <= end
    }

    /** The registration check, with its strict comparisons on inclusive ends. */
    predicate Overlaps(n: Node) {
      write == n.write && start < n.end && end > n.start
    }
  }

  function Match(domain: seq<Node>, addr: Word, w: bool): Option<Node> {
    if domain == [] then None
    else if domain[0].Covers(addr, w) then Some(domain[0])
    else Match(domain[1..], addr, w)
  }

  /** `match_mmio_handler`: nothing below the MMIO base, and no way on from an
      address above it that no range covers. */
  function Dispatch(domain: seq<Node>, addr: Word, w: bool): Res<Option<Node>> {
    if addr < MMIO_PHY_BASE then Ok(None)
    else if Match(domain, addr, w).None? then Panic
    else Ok(Match(domain, addr, w))
  }

  /** `mmio_append_node`. */
  function Append(domain: seq<Node>, n: Node): Res<seq<Node>> {
    if exists k | 0 <= k < |domain| :: domain[k].Overlaps(n) then Panic else Ok([n] + domain)
  }

  /** A sequence of registrations in one domain, oldest first. */
  function Register(regs: seq<Node>): Res<seq<Node>> {
    if regs == [] then Ok([])
    else
      var d :- Register(regs[..|regs| - 1]);
      Append(d, regs[|regs| - 1])
  }

  lemma {:induction false} RegisteredInReverse(regs: seq<Node>)
    requires Register(regs).Ok?
    ensures var d := Register(regs).value;
            |d| == |regs| && forall k | 0 <= k < |regs| :: d[k] == regs[|regs| - 1 - k]
  {
    if regs == [] {
    } else {
      RegisteredInReverse(regs[..|regs| - 1]);
    }
  }

  /** No range overlaps one registered before it. */
  ghost predicate NoOverlap(regs: seq<Node>) {
    forall i, j | 0 <= i < j < |regs| :: !regs[i].Overlaps(regs[j])
  }

  lemma OverlapReversed(regs: seq<Node>, d: seq<Node>, n: Node)
    requires |d| == |regs| && forall k | 0 <= k < |regs| :: d[k] == regs[|regs| - 1 - k]
    ensures (exists k | 0 <= k < |d| :: d[k].Overlaps(n)) <==> (exists i | 0 <= i < |regs| :: regs[i].Overlaps(n))
  {
    forall k | 0 <= k < |d|
      ensures d[k] in regs
    {
    }
    forall i | 0 <= i < |regs|
      ensures regs[i] in d
    {
      assert d[|regs| - 1 - i] == regs[i];
    }
  }

  lemma NoOverlapSnoc(regs: seq<Node>, n: Node)
    ensures NoOverlap(regs + [n]) <==> NoOverlap(regs) && !exists i | 0 <= i < |regs| :: regs[i].Overlaps(n)
  {
    var all := regs + [n];
    if NoOverlap(all) {
      forall i, j | 0 <= i < j < |regs|
        ensures !regs[i].Overlaps(regs[j])
      {
        assert !all[i].Overlaps(all[j]);
      }
      forall i | 0 <= i < |regs|
        ensures !regs[i].Overlaps(n)
      {
        assert !all[i].Overlaps(all[|regs|]);
      }
    }
  }

  /** Registration goes through exactly when no range overlaps an earlier one. */
  lemma {:induction false} AcceptedExactly(regs: seq<Node>)
    ensures Register(regs).Ok? || Register(regs).Panic?
    ensures Register(regs).Ok? <==> NoOverlap(regs)
  {
    if regs == [] {
    } else {
      var init, n := regs[..|regs| - 1], regs[|regs| - 1];
      AcceptedExactly(init);
      assert regs == init + [n];
      NoOverlapSnoc(init, n);
      if Register(init).Ok? {
        RegisteredInReverse(init);
        OverlapReversed(init, Register(init).value, n);
      }
      hide NoOverlap;
    }
  }

  /** Two accepted non-empty ranges of one direction share at most one
      address, and that is where one ends and the other starts. */
  lemma AcceptedShareOneAddress(regs: seq<Node>, i: nat, j: nat, w: bool, x: Word)
    requires Register(regs).Ok? && i < j < |regs|
    requires regs[i].start <= regs[i].end && regs[j].start <= regs[j].end
    requires regs[i].Covers(x, w) && regs[j].Covers(x, w)
    ensures (x == regs[i].end == regs[j].start) || (x == regs[j].end == regs[i].start)
    ensures forall y: Word | regs[i].Covers(y, w) && regs[j].Covers(y, w) :: y == x
  {
    AcceptedExactly(regs);
    assert !regs[i].Overlaps(regs[j]);
  }

  lemma {:induction false} MatchIsFirst(domain: seq<Node>, addr: Word, w: bool)
    ensures Match(domain, addr, w).None? <==> forall k | 0 <= k < |domain| :: !domain[k].Covers(addr, w)
    ensures Match(domain, addr, w).Some? ==>
              exists k :: 0 <= k < |domain| && domain[k] == Match(domain, addr, w).value
                          && domain[k].Covers(addr, w)
                          && forall l | 0 <= l < k :: !domain[l].Covers(addr, w)
  {
    if domain == [] {
    } else if domain[0].Covers(addr, w) {
    } else {
      MatchIsFirst(domain[1..], addr, w);
      if Match(domain[1..], addr, w).Some? {
        var k :| 0 <= k < |domain| - 1 && domain[1..][k] == Match(domain[1..], addr, w).value
                 && domain[1..][k].Covers(addr, w)
                 && forall l | 0 <= l < k :: !domain[1..][l].Covers(addr, w);
        assert domain[k + 1] == domain[1..][k];
        forall l | 0 <= l < k + 1
          ensures !domain[l].Covers(addr, w)
        {
          if l > 0 {
            assert domain[l] == domain[1..][l - 1];
          }
        }
      } else {
        forall k | 0 <= k < |domain|
          ensures !domain[k].Covers(addr, w)
        {
          if k > 0 {
            assert domain[k] == domain[1..][k - 1];
          }
        }
      }
    }
  }

  /** `k` is the most recent registration covering the address. */
  ghost predicate LatestCover(regs: seq<Node>, addr: Word, w: bool, k: int) {
    && 0 <= k < |regs|
    && regs[k].Covers(addr, w)
    && forall l | k < l < |regs| :: !regs[l].Covers(addr, w)
  }

  /** After any accepted registrations an address goes to the most recent
      range covering it, and to none exactly when none covers it. */
  lemma {:induction false} LatestWins(regs: seq<Node>, addr: Word, w: bool)
    requires Register(regs).Ok?
    ensures var r := Match(Register(regs).value, addr, w);
            if r.None? then forall k | 0 <= k < |regs| :: !regs[k].Covers(addr, w)
            else exists k :: LatestCover(regs, addr, w, k) && regs[k] == r.value
  {
    if regs == [] {
    } else {
      var init, n := regs[..|regs| - 1], regs[|regs| - 1];
      LatestWins(init, addr, w);
      var d := Register(init).value;
      assert ([n] + d)[1..] == d;
      if n.Covers(addr, w) {
        assert LatestCover(regs, addr, w, |regs| - 1);
      } else if Match(d, addr, w).Some? {
        var k :| LatestCover(init, addr, w, k) && init[k] == Match(d, addr, w).value;
        assert LatestCover(regs, addr, w, k) && regs[k] == init[k];
      } else {
        forall k | 0 <= k < |regs|
          ensures !regs[k].Covers(addr, w)
        {
          assert k < |init| ==> regs[k] == init[k];
        }
      }
    }
  }

  /** An address that only one range covers is dispatched alike by every
      accepted order of the same registrations. */
  lemma OrderIrrelevant(regs: seq<Node>, regs': seq<Node>, addr: Word, w: bool)
    requires Register(regs).Ok? && Register(regs').Ok?
    requires multiset(regs) == multiset(regs')
    requires forall n, n' | n in regs && n' in regs && n.Covers(addr, w) && n'.Covers(addr, w) :: n == n'
    ensures Dispatch(Register(regs).value, addr, w) == Dispatch(Register(regs').value, addr, w)
  {
    LatestWins(regs, addr, w);
    LatestWins(regs', addr, w);
    forall n: Node
      ensures n in regs <==> n in regs'
    {
      assert n in multiset(regs) <==> n in multiset(regs');
    }
    var r, r' := Match(Register(regs).value, addr, w), Match(Register(regs').value, addr, w);
    if r.Some? {
      var k :| LatestCover(regs, addr, w, k) && regs[k] == r.value;
      assert r.value in regs';
    }
    if r'.Some? {
      var k :| LatestCover(regs', addr, w, k) && regs'[k] == r'.value;
      assert r'.value in regs;
    }
  }

  // ---------- the registrations of dev_ata_init ----------

  const ATA_BASE: Word := 0x8100_0000
  const ATA_LAST: Word := 0x8100_0fff

  const DOMAIN8: seq<Node> := [Node(false, ATA_BASE, ATA_LAST, AtaRead8), Node(true, ATA_BASE, ATA_LAST, AtaWrite8)]
  const DOMAIN16: seq<Node> := [Node(false, ATA_BASE, ATA_LAST, AtaRead16)]
  const DOMAIN32: seq<Node> := [Node(false, ATA_BASE, ATA_LAST, AtaRead32), Node(true, ATA_BASE, ATA_LAST, AtaWrite32)]
}
