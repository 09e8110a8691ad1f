/** availableYears: the choices of the year filter. */
module Years {
  import opened Gifts

  /** `g.year && !g.isDeleted`: a year of 0 is falsy and never offered. */
  predicate OffersYear(g: Gift)
    ensures g.isDeleted || g.year == 0 ==> !OffersYear(g)
  {
    g.year != 0 && !g.isDeleted
  }

  /** The years among the first n gifts that the filter offers. */
  function OfferedYears(gs: seq<Gift>, n: nat): (r: set<int>)
    requires n <= |gs|
    ensures 0 !in r
    ensures forall i :: 0 <= i < n && OffersYear(gs[i]) ==> gs[i].year in r
    ensures forall y :: y in r ==> exists i :: 0 <= i < n && !gs[i].isDeleted && gs[i].year == y
  {
    set i | 0 <= i < n && OffersYear(gs[i]) :: gs[i].year
  }

  lemma HasElement(s: set<int>)
    requires s != {}
    ensures exists x :: x in s
  {
    if forall x :: x !in s {
      assert false;
    }
  }

  /** The largest element of a non-empty set. */
  method MaxOf(s: set<int>) returns (m: int)
    requires s != {}
    ensures m in s && forall x :: x in s ==> x <= m
  {
    HasElement(s);
    m :| m in s;
    var rest := s - {m};
    while rest != {}
      invariant rest <= s && m in s
      invariant forall x :: x in s && x !in rest ==> x <= m
      decreases |rest|
    {
      HasElement(rest);
      var x :| x in rest;
      if x > m {
        m := x;
      }
      rest := rest - {x};
    }
  }

  /** The loop that fills the Set: the current year and every offered year. */
  method CollectYears(gs: seq<Gift>, currentYear: int) returns (seen: set<int>)
    ensures seen == {currentYear} + OfferedYears(gs, |gs|)
  {
    seen := {currentYear};
    for k := 0 to |gs|
      invariant seen == {currentYear} + OfferedYears(gs, k)
    {
      assert OfferedYears(gs, k + 1) == OfferedYears(gs, k) + (if OffersYear(gs[k]) then {gs[k].year} else {});
      if gs[k].year != 0 && !gs[k].isDeleted {
        seen := seen + {gs[k].year};
      }
    }
  }

  /** Array.from(years).sort((a, b) => b - a): the elements of s, largest first. */
  method SortDescending(s: set<int>) returns (years: seq<int>)
    ensures forall y :: y in years <==> y in s
    ensures forall i, j :: 0 <= i < j < |years| ==> years[i] > years[j]
  {
    years := [];
    var rest := s;
    while rest != {}
      invariant forall y :: y in s <==> y in rest || y in years
      invariant forall i, j :: 0 <= i < j < |years| ==> years[i] > years[j]
      invariant forall i, y :: 0 <= i < |years| && y in rest ==> years[i] > y
      decreases |rest|
    {
      var m := MaxOf(rest);
      years := years + [m];
      rest := rest - {m};
    }
  }

  /** The current year and every offered year of the gifts, each once, newest first. */
  method AvailableYears(gs: seq<Gift>, currentYear: int) returns (years: seq<int>)
    ensures currentYear in years
    ensures forall g :: g in gs && OffersYear(g) ==> g.year in years
    ensures forall y :: y in years ==> y == currentYear || exists g :: g in gs && OffersYear(g) && g.year == y
    ensures forall i, j :: 0 <= i < j < |years| ==> years[i] > years[j]
  {
    var seen := CollectYears(gs, currentYear);
    years := SortDescending(seen);
    forall g | g in gs && OffersYear(g) ensures g.year in seen {
      var i :| 0 <= i < |gs| && gs[i] == g;
      assert g.year in OfferedYears(gs, |gs|);
    }
  }
}
