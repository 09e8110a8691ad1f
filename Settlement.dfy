/** The settlement engine: one pass over the filtered gift list that books each
    gift into five running totals and a per-recipient tally. */
module Settlement {
  import opened Gifts

  /** The five running totals of the booking loop. */
  datatype Ledger = Ledger(
    totalSpent: real,
    totalPaoloPaid: real,
    totalMaryPaid: real,
    maryOwesPaolo: real,
    paoloOwesMary: real)

  const EmptyLedger := Ledger(0.0, 0.0, 0.0, 0.0, 0.0)

  /** Per-recipient entry of the tally map. */
  datatype Tally = Tally(count: nat, value: real)

  /** Returned and excluded gifts are skipped by the loop altogether. */
  predicate Counted(g: Gift) {
    !(g.isReturned || g.isExcluded)
  }

  /** The amount settled in cash by the other party: half if split, else all. */
  function RepaidAmount(g: Gift): real {
    if g.isSplit then g.cost / 2.0 else g.cost
  }

  /** One iteration of the booking loop, branch for branch. */
  function Book(l: Ledger, g: Gift): Ledger {
    if !Counted(g) then l
    else
      var l := l.(totalSpent := l.totalSpent + g.cost);
      if g.payer == Payer.Paolo then
        if g.isRepaid then
          l.(totalPaoloPaid := l.totalPaoloPaid + (g.cost - RepaidAmount(g)),
             totalMaryPaid := l.totalMaryPaid + RepaidAmount(g))
        else
          l.(totalPaoloPaid := l.totalPaoloPaid + g.cost,
             maryOwesPaolo := if g.isSplit then l.maryOwesPaolo + g.cost / 2.0 else l.maryOwesPaolo)
      else
        if g.isRepaid then
          l.(totalMaryPaid := l.totalMaryPaid + (g.cost - RepaidAmount(g)),
             totalPaoloPaid := l.totalPaoloPaid + RepaidAmount(g))
        else
          l.(totalMaryPaid := l.totalMaryPaid + g.cost,
             paoloOwesMary := if g.isSplit then l.paoloOwesMary + g.cost / 2.0 else l.paoloOwesMary)
  }

  /** What one booking does: a skipped gift changes nothing; a counted one adds
      its cost to totalSpent and the same amount to the two paid totals; only
      an unrepaid split gift moves a debt, and only the one owed to its payer. */
  lemma BookSteps(l: Ledger, g: Gift)
    ensures !Counted(g) ==> Book(l, g) == l
    ensures Book(l, g).totalSpent == l.totalSpent + (if Counted(g) then g.cost else 0.0)
    ensures Book(l, g).totalPaoloPaid + Book(l, g).totalMaryPaid - Book(l, g).totalSpent
            == l.totalPaoloPaid + l.totalMaryPaid - l.totalSpent
    ensures g.payer == Payer.Paolo ==> Book(l, g).paoloOwesMary == l.paoloOwesMary
    ensures g.payer == Payer.Mary ==> Book(l, g).maryOwesPaolo == l.maryOwesPaolo
    ensures g.isRepaid || !g.isSplit ==>
      Book(l, g).maryOwesPaolo == l.maryOwesPaolo && Book(l, g).paoloOwesMary == l.paoloOwesMary
  {
  }

  /** The totals after booking every gift of gs in order. */
  function LedgerOf(gs: seq<Gift>): Ledger {
    if gs == [] then EmptyLedger else Book(LedgerOf(gs[..|gs| - 1]), gs[|gs| - 1])
  }

  /** Number of counted gifts for r. */
  function CountFor(gs: seq<Gift>, r: Recipient): nat {
    if gs == [] then 0
    else
      var g := gs[|gs| - 1];
      CountFor(gs[..|gs| - 1], r) + (if Counted(g) && g.recipient == r then 1 else 0)
  }

  /** Summed cost of the counted gifts for r. */
  function ValueFor(gs: seq<Gift>, r: Recipient): real {
    if gs == [] then 0.0
    else
      var g := gs[|gs| - 1];
      ValueFor(gs[..|gs| - 1], r) + (if Counted(g) && g.recipient == r then g.cost else 0.0)
  }

  /** The recipient map after the loop has seen every gift of gs in order. */
  function TallyOf(gs: seq<Gift>): map<Recipient, Tally> {
    if gs == [] then map[]
    else
      var m := TallyOf(gs[..|gs| - 1]);
      var g := gs[|gs| - 1];
      if !Counted(g) then m
      else
        var current := if g.recipient in m then m[g.recipient] else Tally(0, 0.0);
        m[g.recipient := Tally(current.count + 1, current.value + g.cost)]
  }

  /** The map holds each recipient's count and summed cost of counted gifts;
      a recipient missing from it has no counted gift. */
  lemma {:induction false} TallyOfCounts(gs: seq<Gift>, r: Recipient)
    ensures r in TallyOf(gs) ==> TallyOf(gs)[r] == Tally(CountFor(gs, r), ValueFor(gs, r))
    ensures r !in TallyOf(gs) ==> CountFor(gs, r) == 0 && ValueFor(gs, r) == 0.0
  {
    if gs != [] {
      var init, g := gs[..|gs| - 1], gs[|gs| - 1];
      TallyOfCounts(init, r);
      var m := TallyOf(init);
      assert CountFor(gs, r) == CountFor(init, r) + (if Counted(g) && g.recipient == r then 1 else 0);
      assert ValueFor(gs, r) == ValueFor(init, r) + (if Counted(g) && g.recipient == r then g.cost else 0.0);
      if !Counted(g) {
        assert TallyOf(gs) == m;
      } else {
        var current := if g.recipient in m then m[g.recipient] else Tally(0, 0.0);
        assert TallyOf(gs) == m[g.recipient := Tally(current.count + 1, current.value + g.cost)];
      }
    }
  }

  /** recipientStats: one entry per recipient, in declaration order, named by
      the recipient. */
  function StatsOf(gs: seq<Gift>): (r: seq<RecipientStats>)
    ensures |r| == |AllRecipients|
    ensures forall i :: 0 <= i < |r| ==> r[i].name == RecipientName(AllRecipients[i])
  {
    seq(|AllRecipients|, i requires 0 <= i < |AllRecipients| =>
      RecipientStats(RecipientName(AllRecipients[i]), CountFor(gs, AllRecipients[i]), ValueFor(gs, AllRecipients[i])))
  }

  /** The summary of a filtered gift list: the paid totals cover the spending
      and the net settlement is the difference of the two debts. */
  function SummaryOf(gs: seq<Gift>): (r: FinancialSummary)
    ensures r.totalPaoloPaid + r.totalMaryPaid == r.totalSpent
    ensures r.netSettlement == r.maryOwesPaolo - r.paoloOwesMary
    ensures |r.recipientStats| == |AllRecipients|
  {
    PaidTotalsCoverSpending(gs);
    var l := LedgerOf(gs);
    FinancialSummary(l.totalSpent, l.totalPaoloPaid, l.totalMaryPaid, l.maryOwesPaolo, l.paoloOwesMary,
                     l.maryOwesPaolo - l.paoloOwesMary, StatsOf(gs))
  }

  /** The body of the booking loop for a gift that is neither returned nor
      excluded: the five running totals after it, as `Book` defines them. */
  method BookCounted(l: Ledger, g: Gift) returns (r: Ledger)
    requires Counted(g)
    ensures r == Book(l, g)
  {
    var totalSpent, totalPaoloPaid, totalMaryPaid, maryOwesPaolo, paoloOwesMary :=
      l.totalSpent, l.totalPaoloPaid, l.totalMaryPaid, l.maryOwesPaolo, l.paoloOwesMary;
    totalSpent := totalSpent + g.cost;
    if g.payer == Payer.Paolo {
      if g.isRepaid {
        var repaidAmount := if g.isSplit then g.cost / 2.0 else g.cost;
        totalPaoloPaid := totalPaoloPaid + (g.cost - repaidAmount);
        totalMaryPaid := totalMaryPaid + repaidAmount;
      } else {
        totalPaoloPaid := totalPaoloPaid + g.cost;
        if g.isSplit {
          maryOwesPaolo := maryOwesPaolo + g.cost / 2.0;
        }
      }
    } else {
      if g.isRepaid {
        var repaidAmount := if g.isSplit then g.cost / 2.0 else g.cost;
        totalMaryPaid := totalMaryPaid + (g.cost - repaidAmount);
        totalPaoloPaid := totalPaoloPaid + repaidAmount;
      } else {
        totalMaryPaid := totalMaryPaid + g.cost;
        if g.isSplit {
          paoloOwesMary := paoloOwesMary + g.cost / 2.0;
        }
      }
    }
    r := Ledger(totalSpent, totalPaoloPaid, totalMaryPaid, maryOwesPaolo, paoloOwesMary);
  }

  /** financialSummary: the booking loop over the filtered gifts, with the
      recipient tally kept in a map and read back in declaration order. */
  method ComputeFinancialSummary(filteredGifts: seq<Gift>) returns (summary: FinancialSummary)
    ensures summary == SummaryOf(filteredGifts)
    ensures summary.totalPaoloPaid + summary.totalMaryPaid == summary.totalSpent
    ensures summary.netSettlement == summary.maryOwesPaolo - summary.paoloOwesMary
  {
    var totals := EmptyLedger;
    var recipientMap: map<Recipient, Tally> := map[];
    for i := 0 to |filteredGifts|
      invariant totals == LedgerOf(filteredGifts[..i])
      invariant recipientMap == TallyOf(filteredGifts[..i])
    {
      var g := filteredGifts[i];
      assert filteredGifts[..i + 1][..i] == filteredGifts[..i];
      if g.isReturned || g.isExcluded {
        continue;
      }
      totals := BookCounted(totals, g);
      var current := if g.recipient in recipientMap then recipientMap[g.recipient] else Tally(0, 0.0);
      recipientMap := recipientMap[g.recipient := Tally(current.count + 1, current.value + g.cost)];
    }
    assert filteredGifts[..|filteredGifts|] == filteredGifts;
    forall r: Recipient
      ensures r in recipientMap ==> recipientMap[r] == Tally(CountFor(filteredGifts, r), ValueFor(filteredGifts, r))
      ensures r !in recipientMap ==> CountFor(filteredGifts, r) == 0 && ValueFor(filteredGifts, r) == 0.0
    {
      TallyOfCounts(filteredGifts, r);
    }
    var recipientStats := seq(|AllRecipients|, k requires 0 <= k < |AllRecipients| =>
      var r := AllRecipients[k];
      RecipientStats(RecipientName(r),
                     if r in recipientMap then recipientMap[r].count else 0,
                     if r in recipientMap then recipientMap[r].value else 0.0));
    summary := FinancialSummary(totals.totalSpent, totals.totalPaoloPaid, totals.totalMaryPaid,
                                totals.maryOwesPaolo, totals.paoloOwesMary,
                                totals.maryOwesPaolo - totals.paoloOwesMary, recipientStats);
  }

  // ---------------------------------------------------------------------
  // Reference definitions, independent of the loop's branch structure.

  /** The counted gifts of gs, in order. */
  function CountedGifts(gs: seq<Gift>): (r: seq<Gift>)
    ensures forall g :: multiset(r)[g] == if Counted(g) then multiset(gs)[g] else 0
  {
    if gs == [] then []
    else
      var init, g := gs[..|gs| - 1], gs[|gs| - 1];
      assert gs == init + [g];
      if Counted(g) then CountedGifts(init) + [g] else CountedGifts(init)
  }

  function TotalCost(gs: seq<Gift>): real {
    if gs == [] then 0.0 else TotalCost(gs[..|gs| - 1]) + gs[|gs| - 1].cost
  }

  /** What the other party has already settled in cash for g. */
  function Transfer(g: Gift): real {
    if g.isRepaid then RepaidAmount(g) else 0.0
  }

  /** The cash p has finally put into g: the payer fronts the cost and gets
      back what was repaid; the other party has put in what they repaid. */
  function Share(g: Gift, p: Payer): real {
    if !Counted(g) then 0.0
    else if g.payer == p then g.cost - Transfer(g)
    else Transfer(g)
  }

  /** The half of a split, not yet repaid gift that the other party owes p. */
  function OwedTo(g: Gift, p: Payer): real {
    if Counted(g) && g.payer == p && g.isSplit && !g.isRepaid then g.cost / 2.0 else 0.0
  }

  function ShareSum(gs: seq<Gift>, p: Payer): real {
    if gs == [] then 0.0 else ShareSum(gs[..|gs| - 1], p) + Share(gs[|gs| - 1], p)
  }

  function OwedSum(gs: seq<Gift>, p: Payer): real {
    if gs == [] then 0.0 else OwedSum(gs[..|gs| - 1], p) + OwedTo(gs[|gs| - 1], p)
  }

  lemma {:induction false} TotalCostAppend(a: seq<Gift>, b: seq<Gift>)
    ensures TotalCost(a + b) == TotalCost(a) + TotalCost(b)
  {
    if b == [] {
      assert a + b == a;
    } else {
      assert (a + b)[..|a + b| - 1] == a + b[..|b| - 1];
      TotalCostAppend(a, b[..|b| - 1]);
    }
  }

  lemma {:induction false} OwedSumAppend(a: seq<Gift>, b: seq<Gift>, p: Payer)
    ensures OwedSum(a + b, p) == OwedSum(a, p) + OwedSum(b, p)
  {
    if b == [] {
      assert a + b == a;
    } else {
      assert (a + b)[..|a + b| - 1] == a + b[..|b| - 1];
      OwedSumAppend(a, b[..|b| - 1], p);
    }
  }

  /** Taking one gift out of a list takes its open half out of the sum. */
  lemma OwedSumRemove(b: seq<Gift>, i: nat, p: Payer)
    requires i < |b|
    ensures OwedSum(b, p) == OwedSum(b[..i] + b[i + 1..], p) + OwedTo(b[i], p)
  {
    assert b == b[..i] + ([b[i]] + b[i + 1..]);
    OwedSumAppend(b[..i], [b[i]] + b[i + 1..], p);
    OwedSumAppend([b[i]], b[i + 1..], p);
    OwedSumAppend(b[..i], b[i + 1..], p);
    assert [b[i]][..0] == [];
  }

  /** Taking the element at i out of a list takes one copy of it out of the multiset. */
  lemma MultisetRemove<T>(b: seq<T>, i: nat)
    requires i < |b|
    ensures multiset(b) == multiset(b[..i] + b[i + 1..]) + multiset{b[i]}
  {
    assert b == b[..i] + [b[i]] + b[i + 1..];
  }

  /** Removing the same element from two permutations leaves permutations. */
  lemma RemoveFromPermutation<T>(a: seq<T>, b: seq<T>, i: nat)
    requires multiset(a) == multiset(b) && a != [] && i < |b| && b[i] == a[|a| - 1]
    ensures multiset(a[..|a| - 1]) == multiset(b[..i] + b[i + 1..])
  {
    MultisetRemove(a, |a| - 1);
    MultisetRemove(b, i);
    assert a[..|a| - 1] + a[|a|..] == a[..|a| - 1];
    var restA, restB := multiset(a[..|a| - 1]), multiset(b[..i] + b[i + 1..]);
    forall x: T
      ensures restA[x] == restB[x]
    {
      assert (restA + multiset{b[i]})[x] == (restB + multiset{b[i]})[x];
    }
  }

  /** What a payer is owed does not depend on the order of the gifts. */
  lemma {:induction false} OwedSumPermutation(a: seq<Gift>, b: seq<Gift>, p: Payer)
    requires multiset(a) == multiset(b)
    ensures OwedSum(a, p) == OwedSum(b, p)
    decreases |a|
  {
    if a == [] {
      assert |b| == |multiset(b)| == 0;
    } else {
      var x := a[|a| - 1];
      assert x in multiset(b);
      var i :| 0 <= i < |b| && b[i] == x;
      RemoveFromPermutation(a, b, i);
      OwedSumPermutation(a[..|a| - 1], b[..i] + b[i + 1..], p);
      OwedSumRemove(b, i, p);
    }
  }

  /** The booking loop computes the reference sums: totalSpent is the cost of
      the counted gifts, each paid total is the sum of that party's shares,
      and each owes figure is the sum of the open halves. */
  lemma {:induction false} LedgerMatchesReference(gs: seq<Gift>)
    ensures LedgerOf(gs) == Ledger(TotalCost(CountedGifts(gs)),
                                   ShareSum(gs, Payer.Paolo), ShareSum(gs, Payer.Mary),
                                   OwedSum(gs, Payer.Paolo), OwedSum(gs, Payer.Mary))
  {
    SpentIsCountedCost(gs);
    PaidIsShareSum(gs, Payer.Paolo);
    PaidIsShareSum(gs, Payer.Mary);
    OwesIsOwedSum(gs, Payer.Paolo);
    OwesIsOwedSum(gs, Payer.Mary);
  }

  /** What p has paid and what p is owed, read off a ledger. */
  function PaidBy(l: Ledger, p: Payer): real {
    if p == Payer.Paolo then l.totalPaoloPaid else l.totalMaryPaid
  }

  function OwedToIn(l: Ledger, p: Payer): real {
    if p == Payer.Paolo then l.maryOwesPaolo else l.paoloOwesMary
  }

  lemma {:induction false} SpentIsCountedCost(gs: seq<Gift>)
    ensures LedgerOf(gs).totalSpent == TotalCost(CountedGifts(gs))
  {
    if gs != [] {
      var init, g := gs[..|gs| - 1], gs[|gs| - 1];
      SpentIsCountedCost(init);
      BookIsShares(LedgerOf(init), g);
      if Counted(g) {
        TotalCostAppend(CountedGifts(init), [g]);
      }
    }
  }

  lemma {:induction false} PaidIsShareSum(gs: seq<Gift>, p: Payer)
    ensures PaidBy(LedgerOf(gs), p) == ShareSum(gs, p)
  {
    if gs != [] {
      var init, g := gs[..|gs| - 1], gs[|gs| - 1];
      PaidIsShareSum(init, p);
      BookIsShares(LedgerOf(init), g);
    }
  }

  lemma {:induction false} OwesIsOwedSum(gs: seq<Gift>, p: Payer)
    ensures OwedToIn(LedgerOf(gs), p) == OwedSum(gs, p)
  {
    if gs != [] {
      var init, g := gs[..|gs| - 1], gs[|gs| - 1];
      OwesIsOwedSum(init, p);
      BookIsShares(LedgerOf(init), g);
    }
  }

  /** One booking adds the gift's cost if counted, each party's share and
      each party's open half. */
  lemma BookIsShares(l: Ledger, g: Gift)
    ensures Book(l, g) == Ledger(l.totalSpent + (if Counted(g) then g.cost else 0.0),
                                 l.totalPaoloPaid + Share(g, Payer.Paolo),
                                 l.totalMaryPaid + Share(g, Payer.Mary),
                                 l.maryOwesPaolo + OwedTo(g, Payer.Paolo),
                                 l.paoloOwesMary + OwedTo(g, Payer.Mary))
  {
  }

  /** Conservation: the two paid totals always add up to the total spent. */
  lemma {:induction false} PaidTotalsCoverSpending(gs: seq<Gift>)
    ensures LedgerOf(gs).totalPaoloPaid + LedgerOf(gs).totalMaryPaid == LedgerOf(gs).totalSpent
  {
    if gs != [] {
      PaidTotalsCoverSpending(gs[..|gs| - 1]);
    }
  }

  /** Appending one gift books exactly that gift. */
  lemma BookLast(gs: seq<Gift>, g: Gift)
    ensures LedgerOf(gs + [g]) == Book(LedgerOf(gs), g)
    ensures StatsOf(gs + [g]) == seq(|AllRecipients|, i requires 0 <= i < |AllRecipients| =>
        var s := StatsOf(gs)[i];
        if Counted(g) && g.recipient == AllRecipients[i]
        then RecipientStats(s.name, s.count + 1, s.value + g.cost) else s)
  {
    assert (gs + [g])[..|gs|] == gs;
  }

  /** A returned or excluded gift changes no figure, recipientStats included. */
  lemma UncountedGiftChangesNothing(gs: seq<Gift>, g: Gift)
    requires g.isReturned || g.isExcluded
    ensures SummaryOf(gs + [g]) == SummaryOf(gs)
  {
    BookLast(gs, g);
  }

  /** A counted gift that is not repaid: its whole cost goes to the payer's paid
      total and, when split, half of it to what the other party owes the payer. */
  lemma UnrepaidBooking(gs: seq<Gift>, g: Gift)
    requires Counted(g) && !g.isRepaid
    ensures var before, after := LedgerOf(gs), LedgerOf(gs + [g]);
      && after.totalSpent == before.totalSpent + g.cost
      && (g.payer == Payer.Paolo ==>
            && after.totalPaoloPaid == before.totalPaoloPaid + g.cost
            && after.totalMaryPaid == before.totalMaryPaid
            && after.maryOwesPaolo == before.maryOwesPaolo + (if g.isSplit then g.cost / 2.0 else 0.0)
            && after.paoloOwesMary == before.paoloOwesMary)
      && (g.payer == Payer.Mary ==>
            && after.totalMaryPaid == before.totalMaryPaid + g.cost
            && after.totalPaoloPaid == before.totalPaoloPaid
            && after.paoloOwesMary == before.paoloOwesMary + (if g.isSplit then g.cost / 2.0 else 0.0)
            && after.maryOwesPaolo == before.maryOwesPaolo)
  {
    BookLast(gs, g);
  }

  /** A counted, repaid gift: no owes figure moves; the repaid amount is the
      other party's, the payer keeps the remainder. */
  lemma RepaidBooking(gs: seq<Gift>, g: Gift)
    requires Counted(g) && g.isRepaid
    ensures var before, after := LedgerOf(gs), LedgerOf(gs + [g]);
      && after.totalSpent == before.totalSpent + g.cost
      && after.maryOwesPaolo == before.maryOwesPaolo
      && after.paoloOwesMary == before.paoloOwesMary
      && (g.payer == Payer.Paolo ==>
            && after.totalMaryPaid == before.totalMaryPaid + RepaidAmount(g)
            && after.totalPaoloPaid == before.totalPaoloPaid + (g.cost - RepaidAmount(g)))
      && (g.payer == Payer.Mary ==>
            && after.totalPaoloPaid == before.totalPaoloPaid + RepaidAmount(g)
            && after.totalMaryPaid == before.totalMaryPaid + (g.cost - RepaidAmount(g)))
  {
    BookLast(gs, g);
  }

  /** Returned and excluded gifts contribute nothing: the summary of a list is
      the summary of its counted gifts alone. */
  lemma {:induction false} OnlyCountedGiftsMatter(gs: seq<Gift>)
    ensures SummaryOf(gs) == SummaryOf(CountedGifts(gs))
  {
    if gs != [] {
      var init, g := gs[..|gs| - 1], gs[|gs| - 1];
      OnlyCountedGiftsMatter(init);
      assert gs == init + [g];
      BookLast(init, g);
      if Counted(g) {
        BookLast(CountedGifts(init), g);
      }
    }
  }

  predicate OpenSplit(g: Gift) {
    Counted(g) && g.isSplit && !g.isRepaid
  }

  /** With no counted gift that is split and still unrepaid, nobody owes anything. */
  lemma {:induction false} NoOpenSplitMeansSettled(gs: seq<Gift>)
    requires forall i :: 0 <= i < |gs| ==> !OpenSplit(gs[i])
    ensures SummaryOf(gs).maryOwesPaolo == 0.0 && SummaryOf(gs).paoloOwesMary == 0.0
    ensures SummaryOf(gs).netSettlement == 0.0
  {
    if gs != [] {
      NoOpenSplitMeansSettled(gs[..|gs| - 1]);
    }
  }

  /** netSettlement is the open halves owed to Paolo minus those owed to Mary. */
  lemma NetSettlementIsOpenHalves(gs: seq<Gift>)
    ensures SummaryOf(gs).netSettlement == OwedSum(gs, Payer.Paolo) - OwedSum(gs, Payer.Mary)
  {
    LedgerMatchesReference(gs);
  }

  /** gs with every payer swapped. */
  function Mirrored(gs: seq<Gift>): (r: seq<Gift>)
    ensures |r| == |gs|
    ensures forall i :: 0 <= i < |gs| ==> r[i] == gs[i].(payer := OtherPayer(gs[i].payer))
  {
    if gs == [] then [] else Mirrored(gs[..|gs| - 1]) + [gs[|gs| - 1].(payer := OtherPayer(gs[|gs| - 1].payer))]
  }

  lemma {:induction false} MirroredOwedSum(gs: seq<Gift>, p: Payer)
    ensures OwedSum(Mirrored(gs), p) == OwedSum(gs, OtherPayer(p))
  {
    if gs != [] {
      MirroredOwedSum(gs[..|gs| - 1], p);
      assert Mirrored(gs)[..|gs| - 1] == Mirrored(gs[..|gs| - 1]);
    }
  }

  /** Symmetry: when every gift is matched by the same gift paid by the other
      party, in whatever order, the open halves cancel and netSettlement is zero. */
  lemma MirroredGiftsCancel(gs: seq<Gift>, mixed: seq<Gift>)
    requires multiset(mixed) == multiset(gs + Mirrored(gs))
    ensures SummaryOf(mixed).netSettlement == 0.0
  {
    NetSettlementIsOpenHalves(mixed);
    OwedSumPermutation(mixed, gs + Mirrored(gs), Payer.Paolo);
    OwedSumPermutation(mixed, gs + Mirrored(gs), Payer.Mary);
    OwedSumAppend(gs, Mirrored(gs), Payer.Paolo);
    OwedSumAppend(gs, Mirrored(gs), Payer.Mary);
    MirroredOwedSum(gs, Payer.Paolo);
    MirroredOwedSum(gs, Payer.Mary);
  }

  // ---------------------------------------------------------------------
  // recipientStats

  function CountTotal(stats: seq<RecipientStats>): nat {
    if stats == [] then 0 else stats[0].count + CountTotal(stats[1..])
  }

  function ValueTotal(stats: seq<RecipientStats>): real {
    if stats == [] then 0.0 else stats[0].value + ValueTotal(stats[1..])
  }

  lemma {:induction false} RecipientCountsCover(gs: seq<Gift>)
    ensures CountFor(gs, Jacopo) + CountFor(gs, Leonardo) + CountFor(gs, Recipient.Mary)
            + CountFor(gs, Anna) + CountFor(gs, Recipient.Paolo) + CountFor(gs, Altri)
            == |CountedGifts(gs)|
    ensures ValueFor(gs, Jacopo) + ValueFor(gs, Leonardo) + ValueFor(gs, Recipient.Mary)
            + ValueFor(gs, Anna) + ValueFor(gs, Recipient.Paolo) + ValueFor(gs, Altri)
            == TotalCost(CountedGifts(gs))
  {
    if gs != [] {
      var init, g := gs[..|gs| - 1], gs[|gs| - 1];
      RecipientCountsCover(init);
      if Counted(g) {
        TotalCostAppend(CountedGifts(init), [g]);
      }
    }
  }

  lemma StatsTotals(stats: seq<RecipientStats>)
    requires |stats| == 6
    ensures CountTotal(stats) == stats[0].count + stats[1].count + stats[2].count
                                 + stats[3].count + stats[4].count + stats[5].count
    ensures ValueTotal(stats) == stats[0].value + stats[1].value + stats[2].value
                                 + stats[3].value + stats[4].value + stats[5].value
  {
    var s1 := stats[1..];
    var s2 := s1[1..];
    var s3 := s2[1..];
    var s4 := s3[1..];
    var s5 := s4[1..];
    assert s5[1..] == [];
    assert CountTotal(s5) == stats[5].count && ValueTotal(s5) == stats[5].value;
    assert CountTotal(s4) == stats[4].count + CountTotal(s5) && ValueTotal(s4) == stats[4].value + ValueTotal(s5);
    assert CountTotal(s3) == stats[3].count + CountTotal(s4) && ValueTotal(s3) == stats[3].value + ValueTotal(s4);
    assert CountTotal(s2) == stats[2].count + CountTotal(s3) && ValueTotal(s2) == stats[2].value + ValueTotal(s3);
    assert CountTotal(s1) == stats[1].count + CountTotal(s2) && ValueTotal(s1) == stats[1].value + ValueTotal(s2);
  }

  /** recipientStats has one entry per recipient, in declaration order; a
      recipient without counted gifts gets count and value 0; the counts add up
      to the number of counted gifts and the values to totalSpent. */
  lemma RecipientStatsAddUp(gs: seq<Gift>)
    ensures var stats := SummaryOf(gs).recipientStats;
      && |stats| == |AllRecipients|
      && (forall i :: 0 <= i < |stats| ==> stats[i].name == RecipientName(AllRecipients[i]))
      && (forall i :: 0 <= i < |stats| ==>
            (forall g :: g in gs && Counted(g) ==> g.recipient != AllRecipients[i]) ==>
              stats[i].count == 0 && stats[i].value == 0.0)
      && CountTotal(stats) == |CountedGifts(gs)|
      && ValueTotal(stats) == SummaryOf(gs).totalSpent
  {
    var stats := SummaryOf(gs).recipientStats;
    StatsTotals(stats);
    RecipientCountsCover(gs);
    SpentIsCountedCost(gs);
    forall i | 0 <= i < |stats| && (forall g :: g in gs && Counted(g) ==> g.recipient != AllRecipients[i])
      ensures stats[i].count == 0 && stats[i].value == 0.0
    {
      AbsentRecipient(gs, AllRecipients[i]);
    }
  }

  lemma {:induction false} AbsentRecipient(gs: seq<Gift>, r: Recipient)
    requires forall g :: g in gs && Counted(g) ==> g.recipient != r
    ensures CountFor(gs, r) == 0 && ValueFor(gs, r) == 0.0
  {
    if gs != [] {
      AbsentRecipient(gs[..|gs| - 1], r);
    }
  }

  // ---------------------------------------------------------------------
  // Worked scenarios

  function Sample(cost: real, payer: Payer, isSplit: bool, isRepaid: bool, isReturned: bool): Gift {
    Gift("g", "Gift", "", cost, Jacopo, false, payer, isSplit, isReturned, isRepaid, false, false,
         Natale, 2024, Some(0), "", "", "", "")
  }

  /** Two gifts of 100 paid by Paolo, one split: Paolo paid 200, Mary owes 50. */
  lemma ScenarioOneSplitOfTwo()
    ensures var s := SummaryOf([Sample(100.0, Payer.Paolo, true, false, false),
                                Sample(100.0, Payer.Paolo, false, false, false)]);
      s.totalPaoloPaid == 200.0 && s.totalMaryPaid == 0.0 && s.maryOwesPaolo == 50.0
      && s.paoloOwesMary == 0.0 && s.netSettlement == 50.0 && s.totalSpent == 200.0
  {
    var a, b := Sample(100.0, Payer.Paolo, true, false, false), Sample(100.0, Payer.Paolo, false, false, false);
    assert [a, b][..1] == [a];
    assert [a][..0] == [];
    assert LedgerOf([a]) == Ledger(100.0, 100.0, 0.0, 50.0, 0.0);
    assert LedgerOf([a, b]) == Book(LedgerOf([a]), b);
  }

  /** A split gift of 60 paid by Mary and repaid: each party carries 30. */
  lemma ScenarioRepaidSplit()
    ensures var s := SummaryOf([Sample(60.0, Payer.Mary, true, true, false)]);
      s.totalMaryPaid == 30.0 && s.totalPaoloPaid == 30.0 && s.maryOwesPaolo == 0.0 && s.paoloOwesMary == 0.0
  {
    var a := Sample(60.0, Payer.Mary, true, true, false);
    assert [a][..0] == [];
    assert LedgerOf([a]) == Book(EmptyLedger, a);
  }

  /** A returned gift of 40 is booked nowhere. */
  lemma ScenarioReturned()
    ensures SummaryOf([Sample(40.0, Payer.Paolo, false, false, true)]) == SummaryOf([])
  {
    UncountedGiftChangesNothing([], Sample(40.0, Payer.Paolo, false, false, true));
    assert [] + [Sample(40.0, Payer.Paolo, false, false, true)] == [Sample(40.0, Payer.Paolo, false, false, true)];
  }
}
