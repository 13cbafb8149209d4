/** Fork choice on top of finality: what a safety halt proves about the committee. */
module SyncSafety {
  import opened Agreement
  import opened Finality
  import opened Prelude
  import opened Weights
  import Fork = ForkChoice

  /** The quorum test on claims is the quorum of the finality machine. */
  lemma ClaimQuorumIsFinalityQuorum(c: Committee, signedPower: int)
    ensures signedPower * 3 > c.Total() * 2 <==> signedPower >= c.Quorum()
  {
  }

  /** The claim repeats a certificate that some replica held at some time. */
  ghost predicate ClaimCertified(c: Committee, s: System, steps: seq<Step>, claim: Fork.Claim) {
    exists r, cert :: EverHolds(c, s, steps, r, claim.height, cert) && cert.blockHash == Lower(claim.blockHash)
  }

  /** When claims repeat certificates of a run with one round per height, a fork choice halts
      only if more than a third of the voting power is Byzantine. */
  lemma HaltProvesByzantineThird(c: Committee, s: System, steps: seq<Step>, roundOf: int -> int,
                                 p: Fork.Policy, es: seq<Fork.Event>)
    requires c.Valid() && Initial(s)
    requires OneRoundPerHeight(Agreement.Run(c, s, steps), roundOf)
    requires forall n | 0 <= n < |es| && es[n].Observed? :: ClaimCertified(c, s, steps, es[n].claim)
    requires Fork.Run(p, Fork.EMPTY, es).halt.Some?
    ensures 3 * Weight(c.powers, Byzantine(c, s)) > c.Total()
  {
    var i, j := Fork.HaltNeedsContradiction(p, es);
    var (claim, claim') := (es[i].claim, es[j].claim);
    assert ClaimCertified(c, s, steps, claim) && ClaimCertified(c, s, steps, claim');
    var r, cert :| EverHolds(c, s, steps, r, claim.height, cert) && cert.blockHash == Lower(claim.blockHash);
    var r', cert' :| EverHolds(c, s, steps, r', claim'.height, cert') && cert'.blockHash == Lower(claim'.blockHash);
    if ByzantineThirdAtMost(c, s) {
      AgreementPerHeight(c, s, steps, roundOf, r, r', claim.height, cert, cert');
    }
  }
}
