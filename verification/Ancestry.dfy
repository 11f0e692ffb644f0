/** The tree of all headers ever imported, linked by parent hashes.

  Every header but the root has its parent in the history, one block lower, so a
  header has exactly one ancestor at each height down to the root.
*/
module Ancestry {
  import opened Primitives
  import opened EthereumHeader

  type History = map<H256, Header>

  ghost predicate LinkedAt(hist: History, root: H256, k: H256)
    requires k in hist
  {
    k != root ==> hist[k].parentHash in hist && hist[k].number == hist[hist[k].parentHash].number + 1
  }

  ghost predicate Rooted(hist: History, root: H256) {
    && root in hist
    && hist[root].parentHash !in hist
    && (forall k {:trigger hist[k].number} :: k in hist ==> hist[root].number <= hist[k].number)
    && (forall k {:trigger LinkedAt(hist, root, k)} :: k in hist ==> LinkedAt(hist, root, k))
  }

  /** The ancestor-or-self of `k` at height `n`. */
  ghost function Ancestor(hist: History, root: H256, k: H256, n: nat): (a: H256)
    requires Rooted(hist, root) && k in hist && hist[root].number <= n <= hist[k].number
    ensures a in hist && hist[a].number == n
    decreases hist[k].number
  {
    assert LinkedAt(hist, root, k);
    if hist[k].number == n then k else Ancestor(hist, root, hist[k].parentHash, n)
  }

  ghost predicate IsAncestor(hist: History, root: H256, a: H256, k: H256)
    requires Rooted(hist, root)
  {
    && a in hist && k in hist
    && hist[a].number <= hist[k].number
    && Ancestor(hist, root, k, hist[a].number) == a
  }

  /** `base` plus the difficulties from the root's child up to `k`. */
  ghost function TotalDifficulty(hist: History, root: H256, base: nat, k: H256): nat
    requires Rooted(hist, root) && k in hist
    decreases hist[k].number
  {
    assert LinkedAt(hist, root, k);
    if k == root then base
    else TotalDifficulty(hist, root, base, hist[k].parentHash) + hist[k].difficulty
  }

  lemma {:induction false} AncestorCompose(hist: History, root: H256, k: H256, m: nat, n: nat)
    requires Rooted(hist, root) && k in hist && hist[root].number <= n <= m <= hist[k].number
    ensures Ancestor(hist, root, Ancestor(hist, root, k, m), n) == Ancestor(hist, root, k, n)
    decreases hist[k].number
  {
    assert LinkedAt(hist, root, k);
    if hist[k].number != m {
      AncestorCompose(hist, root, hist[k].parentHash, m, n);
    }
  }

  lemma AncestorTransitive(hist: History, root: H256, a: H256, b: H256, c: H256)
    requires Rooted(hist, root)
    requires IsAncestor(hist, root, a, b) && IsAncestor(hist, root, b, c)
    ensures IsAncestor(hist, root, a, c)
  {
    AncestorCompose(hist, root, c, hist[b].number, hist[a].number);
  }

  /** Two ancestors of one header are on one chain. */
  lemma AncestorsComparable(hist: History, root: H256, a: H256, b: H256, c: H256)
    requires Rooted(hist, root)
    requires IsAncestor(hist, root, a, c) && IsAncestor(hist, root, b, c)
    requires hist[a].number <= hist[b].number
    ensures IsAncestor(hist, root, a, b)
  {
    AncestorCompose(hist, root, c, hist[b].number, hist[a].number);
  }

  /** `later` holds everything that `hist` holds. */
  ghost predicate Includes(later: History, hist: History) {
    forall k {:trigger k in later} {:trigger hist[k]} :: k in hist ==> k in later && later[k] == hist[k]
  }

  lemma {:induction false} AncestorStable(hist: History, later: History, root: H256, k: H256, n: nat)
    requires Rooted(hist, root) && Rooted(later, root) && Includes(later, hist)
    requires k in hist && hist[root].number <= n <= hist[k].number
    ensures Ancestor(later, root, k, n) == Ancestor(hist, root, k, n)
    decreases hist[k].number
  {
    assert LinkedAt(hist, root, k);
    if hist[k].number != n {
      AncestorStable(hist, later, root, hist[k].parentHash, n);
    }
  }

  lemma IsAncestorStable(hist: History, later: History, root: H256, a: H256, k: H256)
    requires Rooted(hist, root) && Rooted(later, root) && Includes(later, hist)
    requires IsAncestor(hist, root, a, k)
    ensures IsAncestor(later, root, a, k)
  {
    AncestorStable(hist, later, root, k, hist[a].number);
  }

  lemma {:induction false} TotalDifficultyStable(hist: History, later: History, root: H256, base: nat, k: H256)
    requires Rooted(hist, root) && Rooted(later, root) && Includes(later, hist) && k in hist
    ensures TotalDifficulty(later, root, base, k) == TotalDifficulty(hist, root, base, k)
    decreases hist[k].number
  {
    assert LinkedAt(hist, root, k);
    if k != root {
      TotalDifficultyStable(hist, later, root, base, hist[k].parentHash);
    }
  }

  /** Adding a child keeps the tree rooted and puts the child right above its parent. */
  lemma AddChild(hist: History, root: H256, h: H256, header: Header)
    requires Rooted(hist, root) && h !in hist && h != hist[root].parentHash
    requires header.parentHash in hist && header.number == hist[header.parentHash].number + 1
    ensures Rooted(hist[h := header], root) && Includes(hist[h := header], hist)
    ensures forall a {:trigger IsAncestor(hist[h := header], root, a, h)} ::
              a in hist && IsAncestor(hist, root, a, header.parentHash) ==> IsAncestor(hist[h := header], root, a, h)
  {
    var later := hist[h := header];
    forall k | k in later
      ensures LinkedAt(later, root, k)
    {
      if k != h {
        assert LinkedAt(hist, root, k);
      }
    }
    assert Rooted(later, root);
    forall a | a in hist && IsAncestor(hist, root, a, header.parentHash)
      ensures IsAncestor(later, root, a, h)
    {
      AncestorStable(hist, later, root, header.parentHash, hist[a].number);
    }
  }
}
