/** Walking cluster chains through the file allocation table (the loops of fat12_read and
    fat12_write), and when such a walk is acyclic. */
module Chains {
  import opened Bits
  import opened FatTable

  /** No chain visits more clusters than there are cluster numbers below EOF_MIN. */
  const LIMIT: nat := 0xFF8

  /** The clusters visited in at most n steps from c; a value of EOF_MIN or more ends the walk. */
  function Chain(fat: Fat, c: u16, n: nat): (cs: seq<u16>)
    ensures |cs| <= n
    ensures forall i | 0 <= i < |cs| :: cs[i] < EOF_MIN
    decreases n
  {
    if n == 0 || c >= EOF_MIN then [] else [c] + Chain(fat, Entry(fat, c), n - 1)
  }

  /** The table value the walk stands at after at most n steps. */
  function After(fat: Fat, c: u16, n: nat): u16
    decreases n
  {
    if n == 0 || c >= EOF_MIN then c else After(fat, Entry(fat, c), n - 1)
  }

  function FullChain(fat: Fat, c: u16): seq<u16> { Chain(fat, c, LIMIT) }

  predicate Terminates(fat: Fat, c: u16) { After(fat, c, LIMIT) >= EOF_MIN }

  predicate Distinct(cs: seq<u16>) {
    forall i, j | 0 <= i < j < |cs| :: cs[i] != cs[j]
  }

  /** A file's chain: it ends, and it visits no reserved cluster number. */
  predicate GoodChain(fat: Fat, first: u16) {
    && 2 <= first < EOF_MIN
    && Terminates(fat, first)
    && forall e | e in FullChain(fat, first) :: 2 <= e
  }

  lemma {:induction false} AfterAdd(fat: Fat, c: u16, a: nat, b: nat)
    ensures After(fat, c, a + b) == After(fat, After(fat, c, a), b)
    decreases a
  {
    if a > 0 && c < EOF_MIN {
      AfterAdd(fat, Entry(fat, c), a - 1, b);
    }
  }

  lemma {:induction false} ChainAdd(fat: Fat, c: u16, a: nat, b: nat)
    ensures Chain(fat, c, a + b) == Chain(fat, c, a) + Chain(fat, After(fat, c, a), b)
    decreases a
  {
    if a > 0 && c < EOF_MIN {
      ChainAdd(fat, Entry(fat, c), a - 1, b);
    }
  }

  /** The walk stands at cs[i] after i steps, and it stops short of n only at an end marker. */
  lemma {:induction false} ChainAt(fat: Fat, c: u16, n: nat)
    ensures var cs := Chain(fat, c, n);
            && (forall i | 0 <= i < |cs| :: cs[i] == After(fat, c, i))
            && After(fat, c, n) == After(fat, c, |cs|)
            && (|cs| < n ==> After(fat, c, |cs|) >= EOF_MIN)
    decreases n
  {
    if n > 0 && c < EOF_MIN {
      var d := Entry(fat, c);
      ChainAt(fat, d, n - 1);
      var cs, ds := Chain(fat, c, n), Chain(fat, d, n - 1);
      assert |cs| == |ds| + 1;
      forall i | 0 <= i < |cs| ensures cs[i] == After(fat, c, i) {
        if i > 0 {
          assert cs[i] == ds[i - 1] == After(fat, d, i - 1);
        }
      }
    }
  }

  /** Inside a chain, each cluster's entry is the next cluster. */
  lemma ChainLinks(fat: Fat, c: u16, n: nat, i: nat)
    requires i < |Chain(fat, c, n)|
    ensures Entry(fat, Chain(fat, c, n)[i]) == After(fat, c, i + 1)
    ensures i + 1 < |Chain(fat, c, n)| ==> Entry(fat, Chain(fat, c, n)[i]) == Chain(fat, c, n)[i + 1]
  {
    ChainAt(fat, c, n);
    AfterAdd(fat, c, i, 1);
    var e := Chain(fat, c, n)[i];
    assert After(fat, e, 1) == After(fat, Entry(fat, e), 0);
    if i + 1 < |Chain(fat, c, n)| {
      assert Chain(fat, c, n)[i + 1] == After(fat, c, i + 1);
    }
  }

  /** A walk that ends never repeats a cluster. */
  lemma {:induction false} TerminatesIsDistinct(fat: Fat, c: u16, n: nat)
    requires After(fat, c, n) >= EOF_MIN
    ensures Distinct(Chain(fat, c, n))
  {
    var cs := Chain(fat, c, n);
    ChainAt(fat, c, n);
    forall i, j | 0 <= i < j < |cs| ensures cs[i] != cs[j] {
      var rest := |cs| - j;
      AfterAdd(fat, c, i, rest);
      AfterAdd(fat, c, j, rest);
      assert i + rest < |cs| && cs[i + rest] == After(fat, c, i + rest);
    }
  }

  /** Distinct numbers below a bound are at most that many. */
  lemma {:induction false} Pigeonhole(cs: seq<u16>, bound: nat)
    requires Distinct(cs) && forall i | 0 <= i < |cs| :: cs[i] < bound
    ensures |cs| <= bound
  {
    var least: int := if |cs| > 0 then cs[0] else 0;
    if bound > 0 {
      if i :| 0 <= i < |cs| && cs[i] == bound - 1 {
        Pigeonhole(cs[..i] + cs[i + 1..], bound - 1);
      } else {
        Pigeonhole(cs, bound - 1);
      }
    }
  }

  lemma TerminatingWalkIsAcyclic(fat: Fat, c: u16, n: nat)
    requires Terminates(fat, c)
    ensures Distinct(Chain(fat, c, n))
  {
    TerminatesIsDistinct(fat, c, LIMIT);
    ChainSaturates(fat, c, n);
  }

  lemma AcyclicWalkTerminates(fat: Fat, c: u16)
    requires Distinct(Chain(fat, c, LIMIT + 1))
    ensures Terminates(fat, c)
  {
    hide Entry, Chain, After;
    Pigeonhole(Chain(fat, c, LIMIT + 1), LIMIT);
    ChainAt(fat, c, LIMIT + 1);
    ChainAdd(fat, c, LIMIT, 1);
    ChainAt(fat, c, LIMIT);
  }

  ghost predicate NeverRepeats(fat: Fat, c: u16) {
    forall n: nat :: Distinct(Chain(fat, c, n))
  }

  /** Following a chain ends exactly when it never comes back to a cluster. */
  lemma TerminatesIffAcyclic(fat: Fat, c: u16)
    ensures Terminates(fat, c) <==> NeverRepeats(fat, c)
  {
    if NeverRepeats(fat, c) {
      AcyclicWalkTerminates(fat, c);
    } else if Terminates(fat, c) {
      var n: nat :| !Distinct(Chain(fat, c, n));
      TerminatingWalkIsAcyclic(fat, c, n);
    }
  }

  /** A chain depends only on the entries of the clusters in it. */
  lemma {:induction false} ChainFrame(fat: Fat, fat': Fat, c: u16, n: nat)
    requires forall e | e in Chain(fat, c, n) :: Entry(fat', e) == Entry(fat, e)
    ensures Chain(fat', c, n) == Chain(fat, c, n)
    ensures After(fat', c, n) == After(fat, c, n)
    decreases n
  {
    if n > 0 && c < EOF_MIN {
      assert c == Chain(fat, c, n)[0];
      assert forall e | e in Chain(fat, Entry(fat, c), n - 1) :: e in Chain(fat, c, n);
      ChainFrame(fat, fat', Entry(fat, c), n - 1);
    }
  }

  /** No cluster of a good chain is free. */
  lemma GoodChainNotFree(fat: Fat, first: u16, e: u16)
    requires GoodChain(fat, first) && e in FullChain(fat, first)
    ensures Entry(fat, e) != FREE
  {
    var cs := FullChain(fat, first);
    var i :| 0 <= i < |cs| && cs[i] == e;
    ChainLinks(fat, first, LIMIT, i);
    ChainAt(fat, first, LIMIT);
    if i + 1 < |cs| {
      assert cs[i + 1] in cs;
    } else {
      assert After(fat, first, |cs|) >= EOF_MIN;
    }
  }

  /** Every chain that is long enough is the full one. */
  lemma ChainSaturates(fat: Fat, c: u16, n: nat)
    requires Terminates(fat, c)
    ensures Chain(fat, c, n) == FullChain(fat, c)[..Min(n, |FullChain(fat, c)|)]
    ensures After(fat, c, n) == After(fat, c, Min(n, |FullChain(fat, c)|))
  {
    ChainAt(fat, c, LIMIT);
    ChainAt(fat, c, n);
    if n <= LIMIT {
      ChainAdd(fat, c, n, LIMIT - n);
    } else {
      ChainAdd(fat, c, LIMIT, n - LIMIT);
    }
  }
}
