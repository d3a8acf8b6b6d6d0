/**
 * Two list manipulations of the patch builder: the split of the compiled
 * `.bll` libraries between the bank and the client parts of a patch
 * (git2patch.py:1842-1844), and the removal of repeated Jira tickets
 * (git2patch.py:2023).
 */
module PatchLists {

  // ---------------------------------------------------------------------------
  // `copy_bll`
  // ---------------------------------------------------------------------------

  /** Where the libraries go: the bank part, the client part, and the client part shared with the MBA. */
  datatype BllLists = BllLists(bank: set<string>, client: set<string>, clientMba: set<string>)

  /**
   * The library lists of `copy_bll`, from all changed libraries, the bank's
   * (`?b*`), the RTS's and those of the MBA sources. The script goes through
   * `set`, so the order of its lists is not defined.
   */
  function SplitBll(all: set<string>, onlyBank: set<string>, onlyRts: set<string>, onlyMba: set<string>): BllLists
  {
    var clientMba := all - onlyBank - onlyRts;
    BllLists(all - onlyRts, clientMba - onlyMba, clientMba)
  }

  /**
   * Every changed library is copied to the bank part or with the RTS files;
   * the client lists hold no bank or RTS library, the client list no MBA
   * one, and each list is contained in the next.
   */
  lemma SplitBllCovers(all: set<string>, onlyBank: set<string>, onlyRts: set<string>, onlyMba: set<string>)
    ensures var r := SplitBll(all, onlyBank, onlyRts, onlyMba);
      && r.client <= r.clientMba <= r.bank <= all
      && all <= r.bank + onlyRts
      && r.bank !! onlyRts
      && r.clientMba !! onlyBank + onlyRts
      && r.client !! onlyMba
      && r.clientMba - r.client <= onlyMba
  {
  }

  // ---------------------------------------------------------------------------
  // `list(dict.fromkeys(tickets))`
  // ---------------------------------------------------------------------------

  predicate Distinct<T(==)>(xs: seq<T>)
  {
    forall i, j :: 0 <= i < j < |xs| ==> xs[i] != xs[j]
  }

  /** The index of the first occurrence of `x` in `xs`. */
  function FirstIndex<T(==)>(xs: seq<T>, x: T): (r: nat)
    requires x in xs
    ensures r < |xs| && xs[r] == x
    ensures forall k :: 0 <= k < r ==> xs[k] != x
  {
    if xs[0] == x then 0 else 1 + FirstIndex(xs[1..], x)
  }

  /**
   * `list(dict.fromkeys(xs))`: a key already in the dictionary keeps its
   * place, so each value stays where it first occurs.
   */
  function Dedup<T(==)>(xs: seq<T>): seq<T>
  {
    if xs == [] then []
    else
      var before := Dedup(xs[..|xs| - 1]);
      if xs[|xs| - 1] in before then before else before + [xs[|xs| - 1]]
  }

  lemma {:induction false} FirstIndexPrefix<T>(xs: seq<T>, x: T)
    requires xs != [] && x in xs[..|xs| - 1]
    ensures FirstIndex(xs, x) == FirstIndex(xs[..|xs| - 1], x)
  {
    var init := xs[..|xs| - 1];
    if xs[0] != x {
      assert init[0] == xs[0];
      assert xs[1..][..|xs| - 2] == init[1..];
      FirstIndexPrefix(xs[1..], x);
    }
  }

  /**
   * The tickets are kept once each, none is lost or added, and they come in
   * the order of their first mention.
   */
  lemma DedupKeepsFirstOccurrences<T>(xs: seq<T>)
    ensures Distinct(Dedup(xs))
    ensures forall x :: x in Dedup(xs) <==> x in xs
    ensures forall i, j :: 0 <= i < j < |Dedup(xs)| ==> FirstIndex(xs, Dedup(xs)[i]) < FirstIndex(xs, Dedup(xs)[j])
  {
    DedupElements(xs);
    DedupOrder(xs);
  }

  lemma {:induction false} DedupElements<T>(xs: seq<T>)
    ensures Distinct(Dedup(xs))
    ensures forall x :: x in Dedup(xs) <==> x in xs
  {
    if xs != [] {
      var init := xs[..|xs| - 1];
      DedupElements(init);
      assert xs == init + [xs[|xs| - 1]];
    }
  }

  lemma {:induction false} DedupOrder<T>(xs: seq<T>)
    ensures forall x :: x in Dedup(xs) ==> x in xs
    ensures forall i, j :: 0 <= i < j < |Dedup(xs)| ==> FirstIndex(xs, Dedup(xs)[i]) < FirstIndex(xs, Dedup(xs)[j])
  {
    DedupElements(xs);
    if xs != [] {
      var init := xs[..|xs| - 1];
      var last := xs[|xs| - 1];
      DedupOrder(init);
      DedupElements(init);
      var before := Dedup(init);
      assert xs == init + [last];
      forall x | x in init
        ensures FirstIndex(xs, x) == FirstIndex(init, x)
      {
        FirstIndexPrefix(xs, x);
      }
      if last !in before {
        assert last !in init;
        assert FirstIndex(xs, last) == |xs| - 1;
        var r := before + [last];
        forall i, j | 0 <= i < j < |r|
          ensures FirstIndex(xs, r[i]) < FirstIndex(xs, r[j])
        {
          assert r[i] == before[i] && r[i] in before;
          if j < |before| {
            assert r[j] == before[j] && r[j] in before;
          } else {
            assert FirstIndex(init, r[i]) < |init|;
          }
        }
      } else {
        forall i, j | 0 <= i < j < |before|
          ensures FirstIndex(xs, before[i]) < FirstIndex(xs, before[j])
        {
          assert before[i] in before && before[j] in before;
        }
      }
    }
  }

  /** Removing repeats a second time changes nothing. */
  lemma {:induction false} DedupIdempotent<T>(xs: seq<T>)
    ensures Dedup(Dedup(xs)) == Dedup(xs)
  {
    DedupKeepsFirstOccurrences(xs);
    DedupOfDistinct(Dedup(xs));
  }

  /** A list without repeats is its own `list(dict.fromkeys(...))`. */
  lemma {:induction false} DedupOfDistinct<T>(xs: seq<T>)
    requires Distinct(xs)
    ensures Dedup(xs) == xs
  {
    if xs != [] {
      var init := xs[..|xs| - 1];
      assert Distinct(init);
      DedupOfDistinct(init);
      assert xs[|xs| - 1] !in init;
      assert xs == init + [xs[|xs| - 1]];
    }
  }
}
