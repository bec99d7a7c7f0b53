/** The timer (tsc.c) and the interrupt controller (irqc.c). */
module Interrupts {
  import opened Words
  import opened Msr

  /** One clock edge: compare first, then count. */
  function TscClk(m: MsrFile): MsrFile {
    if !m.tcr.en then m
    else
      var m1 := if m.tcr.i && m.tsr % 0x1000_0000 == m.tcr.cnt
                then TscUpdateTcr(m.(tcr := m.tcr.(p := true)))
                else m;
      m1.(tsr := Wrap(m1.tsr + 1))
  }

  predicate IrqPending(m: MsrFile) {
    m.psr.ire && And(m.irr, Not(m.imr)) != 0
  }

  /** Clock edges that pass before the one that matches, for any 32-bit TSR. */
  function EdgesToMatch(m: MsrFile): nat {
    (m.tcr.cnt - m.tsr) % 0x1000_0000
  }

  /** The comparator fires on an edge exactly when no edge is left to wait for. */
  lemma MatchesExactly(m: MsrFile)
    requires m.tcr.cnt < 0x1000_0000
    ensures m.tsr % 0x1000_0000 == m.tcr.cnt <==> EdgesToMatch(m) == 0
  {
  }

  /** Each edge that does not match brings the match one edge nearer, also
      when the 32-bit counter wraps. */
  lemma EdgeCountsDown(m: MsrFile)
    requires m.tcr.cnt < 0x1000_0000 && m.tcr.en && EdgesToMatch(m) > 0
    ensures TscClk(m) == m.(tsr := Wrap(m.tsr + 1))
    ensures EdgesToMatch(TscClk(m)) == EdgesToMatch(m) - 1
  {
    MatchesExactly(m);
    var m' := TscClk(m);
    assert m' == m.(tsr := Wrap(m.tsr + 1));
    hide TscClk;
    var x, d := m.tcr.cnt - m.tsr, EdgesToMatch(m);
    var q := x / 0x1000_0000;
    assert x == q * 0x1000_0000 + d;
    if m.tsr + 1 < 0x1_0000_0000 {
      DivModUnique(x - 1, 0x1000_0000, q, d - 1);
    } else {
      DivModUnique(x + 0xffff_ffff, 0x1000_0000, q + 16, d - 1);
    }
  }

  /** An edge that is not one of a matching, enabled comparator: a stopped
      timer does nothing, a running one only counts. */
  lemma IdleEdge(m: MsrFile)
    requires !m.tcr.en || !m.tcr.i || m.tsr % 0x1000_0000 != m.tcr.cnt
    ensures TscClk(m) == if m.tcr.en then m.(tsr := Wrap(m.tsr + 1)) else m
  {
    hide SetLine;
  }

  /** Interrupts are pending exactly when they are enabled and some line is
      raised and not masked. */
  lemma PendingExactly(m: MsrFile)
    ensures IrqPending(m) <==> m.psr.ire && exists k: nat :: k < 32 && Bit(m.irr, k) && !Bit(m.imr, k)
  {
    MaskedNonzero(m.irr, m.imr);
    hide And, Bit;
  }
}
