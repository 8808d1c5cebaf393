/**
 * The document-integrity guard (src/extensions/DocumentProtection/DocumentProtectionPlugin.ts):
 * a filter on every proposed transaction that refuses the ones that would leave the
 * document without a top-level block.
 */
module DocumentProtection {

  /**
   * Whether a transaction may commit, from whether its steps change the document and
   * how many top-level blocks the resulting document has.
   */
  function FilterTransaction(docChanged: bool, childCount: nat): bool
  {
    if !docChanged then true
    else if childCount == 0 then false
    else true
  }

  /** A transaction that does not change the document (selection, pagination meta) always passes. */
  lemma MetaOnlyAllowed(childCount: nat)
    ensures FilterTransaction(false, childCount)
  {
  }

  /** A document change that leaves no block is refused. */
  lemma EmptyingRejected()
    ensures !FilterTransaction(true, 0)
  {
  }

  /** A document change that leaves at least one block passes. */
  lemma NonEmptyAllowed(childCount: nat)
    requires childCount >= 1
    ensures FilterTransaction(true, childCount)
  {
  }

  /** A proposed transaction: whether it changes the document and the block count it would leave. */
  datatype Proposal = Proposal(docChanged: bool, childCount: nat)

  /**
   * The editor's dispatch, as far as the block count goes: a refused transaction has no
   * effect, an accepted document change installs its document, and a transaction that
   * does not change the document leaves it as it was.
   */
  function Dispatch(count: nat, p: Proposal): nat
  {
    if FilterTransaction(p.docChanged, p.childCount) && p.docChanged then p.childCount else count
  }

  function DispatchAll(count: nat, ps: seq<Proposal>): nat
    decreases |ps|
  {
    if ps == [] then count else DispatchAll(Dispatch(count, ps[0]), ps[1..])
  }

  /** Starting from a document with a block, no sequence of transactions empties it. */
  lemma {:induction false} NeverEmptied(count: nat, ps: seq<Proposal>)
    requires count >= 1
    ensures DispatchAll(count, ps) >= 1
    decreases |ps|
  {
    if ps != [] {
      NeverEmptied(Dispatch(count, ps[0]), ps[1..]);
    }
  }

  /** Deleting the only block is refused; deleting one of two blocks goes through. */
  lemma DeleteScenarios()
    ensures Dispatch(1, Proposal(true, 0)) == 1
    ensures Dispatch(2, Proposal(true, 1)) == 1
  {
  }
}
