/** The per-student aggregates `construir_features` computes from the
    enrollment rows: distinct offerings, distinct offerings per outcome
    category, mean grade, absences counted once per offering, and makeups. */
module Aggregates {
  import opened Wrappers
  import opened Seqs
  import opened Records
  import opened Outcome

  /** The enrollment rows of one student, in table order (one `groupby`
      group). */
  function RowsOf(es: seq<Enrollment>, s: string): (r: seq<Enrollment>)
    ensures forall i | 0 <= i < |r| :: r[i].student == s && r[i] in es
    ensures forall i | 0 <= i < |es| :: es[i].student == s ==> es[i] in r
    ensures |r| == 0 <==> forall i | 0 <= i < |es| :: es[i].student != s
  {
    var r := Filter(es, (e: Enrollment) => e.student == s);
    assert |r| > 0 ==> r[0] in es;
    r
  }

  /** Each row of student `s` is kept as often as it occurs, and no other
      row is. */
  lemma RowsOfCounts(es: seq<Enrollment>, s: string)
    ensures forall e :: multiset(RowsOf(es, s))[e] == if e.student == s then multiset(es)[e] else 0
  {
    FilterCounts(es, (e: Enrollment) => e.student == s);
  }

  // ------------------------------------------------------------- offerings

  /** The distinct `id_turma` values of the rows (`nunique`). */
  function Offerings(xs: seq<Enrollment>): set<string> {
    set e | e in xs :: e.offering
  }

  /** The distinct offerings with at least one row of category `c` (one cell
      of the `pivot_table(..., aggfunc="nunique")`). */
  function OfferingsIn(xs: seq<Enrollment>, c: Category): set<string> {
    set e | e in xs && Categorize(e.description) == c :: e.offering
  }

  /** A category count never exceeds the offering count. */
  lemma CategoryCountBounded(xs: seq<Enrollment>, c: Category)
    ensures OfferingsIn(xs, c) <= Offerings(xs)
    ensures |OfferingsIn(xs, c)| <= |Offerings(xs)|
  {
    SubsetCardinality(OfferingsIn(xs, c), Offerings(xs));
  }

  lemma SubsetCardinality<T>(a: set<T>, b: set<T>)
    requires a <= b
    ensures |a| <= |b|
  {
    assert b == a + (b - a);
  }

  /** Every offering is counted under at least one category; an offering
      whose rows carry several categories is counted under each. */
  lemma OfferingsCoveredByCategories(xs: seq<Enrollment>)
    ensures Offerings(xs) == OfferingsIn(xs, Aprovada) + OfferingsIn(xs, Reprovada)
      + OfferingsIn(xs, Trancada) + OfferingsIn(xs, Indeferido) + OfferingsIn(xs, Outros)
  {
    forall t | t in Offerings(xs)
      ensures t in OfferingsIn(xs, Aprovada) || t in OfferingsIn(xs, Reprovada)
        || t in OfferingsIn(xs, Trancada) || t in OfferingsIn(xs, Indeferido)
        || t in OfferingsIn(xs, Outros)
    {
      var e :| e in xs && e.offering == t;
      var c := Categorize(e.description);
      assert t in OfferingsIn(xs, c);
    }
    CategoryCountBounded(xs, Aprovada);
    CategoryCountBounded(xs, Reprovada);
    CategoryCountBounded(xs, Trancada);
    CategoryCountBounded(xs, Indeferido);
    CategoryCountBounded(xs, Outros);
  }

  /** Counts are of distinct offerings, not of rows: a further row for an
      offering already seen with the same category changes no count. */
  lemma RepeatedOfferingCountsOnce(xs: seq<Enrollment>, x: Enrollment, y: Enrollment)
    requires y in xs && y.offering == x.offering
    requires Categorize(y.description) == Categorize(x.description)
    ensures Offerings(xs + [x]) == Offerings(xs)
    ensures forall c :: OfferingsIn(xs + [x], c) == OfferingsIn(xs, c)
  {
    assert forall e :: e in xs + [x] <==> e in xs || e == x;
  }

  // ----------------------------------------------------------------- grades

  /** The non-missing grades, in row order. */
  function Grades(xs: seq<Enrollment>): (g: seq<real>)
    ensures |g| <= |xs|
    ensures |g| == 0 <==> forall i | 0 <= i < |xs| :: xs[i].grade.None?
  {
    if |xs| == 0 then []
    else (if xs[0].grade.Some? then [xs[0].grade.value] else []) + Grades(xs[1..])
  }

  function Sum(g: seq<real>): real {
    if |g| == 0 then 0.0 else g[0] + Sum(g[1..])
  }

  /** `media_final` averaged with `mean`: over every row of the student
      (duplicated offerings included), skipping missing grades; missing when
      no row has a grade. */
  function MeanGrade(xs: seq<Enrollment>): (m: Option<real>)
    ensures m.None? <==> forall i | 0 <= i < |xs| :: xs[i].grade.None?
  {
    var g := Grades(xs);
    if |g| == 0 then None else Some(Sum(g) / (|g| as real))
  }

  /** A retaken offering counts once among the offerings but both of its
      grades enter the mean: 7.0 and 8.5 average to 7.75, not to the better
      8.5. */
  lemma RetakeIsAveraged(a: Enrollment, b: Enrollment)
    requires a.offering == b.offering
    requires a.grade == Some(7.0) && b.grade == Some(8.5)
    ensures |Offerings([a, b])| == 1
    ensures MeanGrade([a, b]) == Some(7.75)
  {
    assert Offerings([a, b]) == {a.offering};
    assert [a, b][1..] == [b];
    assert Grades([b]) == [8.5];
    assert Grades([a, b]) == [7.0, 8.5];
    assert [7.0, 8.5][1..] == [8.5];
    assert Sum([8.5]) == 8.5;
    assert Sum([7.0, 8.5]) == 15.5;
  }

  lemma {:induction false} GradesBounded(xs: seq<Enrollment>, lo: real, hi: real)
    requires forall i | 0 <= i < |xs| && xs[i].grade.Some? :: lo <= xs[i].grade.value <= hi
    ensures forall i | 0 <= i < |Grades(xs)| :: lo <= Grades(xs)[i] <= hi
  {
    if |xs| > 0 {
      GradesBounded(xs[1..], lo, hi);
    }
  }

  lemma {:induction false} SumBounded(g: seq<real>, lo: real, hi: real)
    requires forall i | 0 <= i < |g| :: lo <= g[i] <= hi
    ensures (|g| as real) * lo <= Sum(g) <= (|g| as real) * hi
  {
    if |g| > 0 {
      SumBounded(g[1..], lo, hi);
    }
  }

  /** The mean lies between the smallest and the largest grade. */
  lemma MeanGradeBounded(xs: seq<Enrollment>, lo: real, hi: real)
    requires forall i | 0 <= i < |xs| && xs[i].grade.Some? :: lo <= xs[i].grade.value <= hi
    ensures MeanGrade(xs).Some? ==> lo <= MeanGrade(xs).value <= hi
  {
    var g := Grades(xs);
    if |g| > 0 {
      GradesBounded(xs, lo, hi);
      SumBounded(g, lo, hi);
      var n := |g| as real;
      assert n * lo <= Sum(g) <= n * hi;
      assert Sum(g) / n >= lo by {
        assert Sum(g) / n * n == Sum(g);
      }
      assert Sum(g) / n <= hi by {
        assert Sum(g) / n * n == Sum(g);
      }
    }
  }

  // ---------------------------------------------------------------- makeups

  /** `reposicao` summed over every row. */
  function TotalMakeups(xs: seq<Enrollment>): (n: int)
    ensures 0 <= n <= |xs|
  {
    if |xs| == 0 then 0 else xs[0].makeup + TotalMakeups(xs[1..])
  }

  /** The makeup total is the number of rows flagged as a makeup. */
  lemma {:induction false} TotalMakeupsCountsFlaggedRows(xs: seq<Enrollment>)
    ensures TotalMakeups(xs) == |Filter(xs, (e: Enrollment) => e.makeup == 1)|
  {
    if |xs| > 0 {
      TotalMakeupsCountsFlaggedRows(xs[1..]);
    }
  }

  // --------------------------------------------------------------- absences

  /** The first non-missing absence count among the rows of offering `t`
      (`groupby([...]).first()`, which skips missing values). */
  function FirstAbsence(xs: seq<Enrollment>, t: string): Option<real> {
    if |xs| == 0 then None
    else if xs[0].offering == t && xs[0].absences.Some? then xs[0].absences
    else FirstAbsence(xs[1..], t)
  }

  /** The distinct offerings in order of first appearance. */
  function OfferingOrder(xs: seq<Enrollment>): (ts: seq<string>)
    ensures NoDup(ts)
    ensures forall t :: t in ts <==> t in Offerings(xs)
  {
    if |xs| == 0 then []
    else
      var init := xs[..|xs| - 1];
      var last := xs[|xs| - 1];
      assert forall e :: e in xs <==> e in init || e == last;
      assert Offerings(xs) == Offerings(init) + {last.offering};
      var o := OfferingOrder(init);
      if last.offering in o then o else o + [last.offering]
  }

  /** The first absence count of each listed offering, a missing one
      counting as 0 (`sum` skips missing values). */
  function SumFirstAbsences(ts: seq<string>, xs: seq<Enrollment>): real {
    if |ts| == 0 then 0.0 else FirstAbsence(xs, ts[0]).GetOr(0.0) + SumFirstAbsences(ts[1..], xs)
  }

  /** `total_faltas`: one absence value per distinct offering. */
  function TotalAbsences(xs: seq<Enrollment>): real {
    SumFirstAbsences(OfferingOrder(xs), xs)
  }

  /** The absence total read row by row: a row's absences count exactly when
      no earlier row of the same offering recorded absences. */
  function RowwiseAbsences(xs: seq<Enrollment>): real {
    if |xs| == 0 then 0.0
    else
      var init := xs[..|xs| - 1];
      var last := xs[|xs| - 1];
      RowwiseAbsences(init)
        + (if last.absences.Some? && FirstAbsence(init, last.offering).None? then last.absences.value else 0.0)
  }

  lemma {:induction false} FirstAbsenceAppend(xs: seq<Enrollment>, x: Enrollment, t: string)
    ensures FirstAbsence(xs + [x], t) ==
      if FirstAbsence(xs, t).Some? then FirstAbsence(xs, t)
      else if x.offering == t && x.absences.Some? then x.absences
      else None
  {
    if |xs| == 0 {
      assert [x][1..] == [];
    } else {
      assert (xs + [x])[1..] == xs[1..] + [x];
      FirstAbsenceAppend(xs[1..], x, t);
    }
  }

  lemma {:induction false} FirstAbsenceOfAbsentOffering(xs: seq<Enrollment>, t: string)
    requires t !in Offerings(xs)
    ensures FirstAbsence(xs, t).None?
  {
    if |xs| > 0 {
      assert xs[0] in xs;
      assert forall e | e in xs[1..] :: e in xs;
      FirstAbsenceOfAbsentOffering(xs[1..], t);
    }
  }

  lemma {:induction false} SumFirstAbsencesAgree(ts: seq<string>, xs: seq<Enrollment>, ys: seq<Enrollment>)
    requires forall i | 0 <= i < |ts| :: FirstAbsence(xs, ts[i]) == FirstAbsence(ys, ts[i])
    ensures SumFirstAbsences(ts, xs) == SumFirstAbsences(ts, ys)
  {
    if |ts| > 0 {
      SumFirstAbsencesAgree(ts[1..], xs, ys);
    }
  }

  lemma {:induction false} SumFirstAbsencesAppend(ts: seq<string>, t: string, xs: seq<Enrollment>)
    ensures SumFirstAbsences(ts + [t], xs) == SumFirstAbsences(ts, xs) + FirstAbsence(xs, t).GetOr(0.0)
  {
    if |ts| == 0 {
      assert [t][1..] == [];
    } else {
      assert (ts + [t])[1..] == ts[1..] + [t];
      SumFirstAbsencesAppend(ts[1..], t, xs);
    }
  }

  /** Changing the first absence of one offering listed once changes the
      sum by exactly that difference. */
  lemma {:induction false} SumFirstAbsencesUpdate(ts: seq<string>, t: string, xs: seq<Enrollment>, ys: seq<Enrollment>)
    requires NoDup(ts) && t in ts
    requires forall i | 0 <= i < |ts| && ts[i] != t :: FirstAbsence(xs, ts[i]) == FirstAbsence(ys, ts[i])
    ensures SumFirstAbsences(ts, ys) ==
      SumFirstAbsences(ts, xs) + FirstAbsence(ys, t).GetOr(0.0) - FirstAbsence(xs, t).GetOr(0.0)
  {
    if ts[0] == t {
      assert t !in ts[1..] by {
        forall i | 0 <= i < |ts[1..]|
          ensures ts[1..][i] != t
        {
          assert ts[1..][i] == ts[i + 1];
        }
      }
      SumFirstAbsencesAgree(ts[1..], xs, ys);
    } else {
      assert NoDup(ts[1..]) by {
        forall i, j | 0 <= i < j < |ts[1..]|
          ensures ts[1..][i] != ts[1..][j]
        {
          assert ts[1..][i] == ts[i + 1] && ts[1..][j] == ts[j + 1];
        }
      }
      SumFirstAbsencesUpdate(ts[1..], t, xs, ys);
    }
  }

  /** `total_faltas` sums exactly one absence value per distinct offering:
      the total over the deduplicated offerings equals the row-by-row count
      in which a row adds its absences only when no earlier row of its
      offering did. */
  lemma {:induction false} TotalAbsencesRowwise(xs: seq<Enrollment>)
    ensures TotalAbsences(xs) == RowwiseAbsences(xs)
  {
    if |xs| > 0 {
      var init := xs[..|xs| - 1];
      var x := xs[|xs| - 1];
      assert xs == init + [x];
      TotalAbsencesRowwise(init);
      var o := OfferingOrder(init);
      var t := x.offering;
      forall u
        ensures FirstAbsence(xs, u) ==
          if FirstAbsence(init, u).Some? then FirstAbsence(init, u)
          else if t == u && x.absences.Some? then x.absences
          else None
      {
        FirstAbsenceAppend(init, x, u);
      }
      if t in o {
        assert OfferingOrder(xs) == o;
        SumFirstAbsencesUpdate(o, t, init, xs);
      } else {
        assert OfferingOrder(xs) == o + [t];
        FirstAbsenceOfAbsentOffering(init, t);
        SumFirstAbsencesAgree(o, init, xs);
        SumFirstAbsencesAppend(o, t, xs);
      }
    }
  }

  /** A further row for an offering whose absences were already recorded
      adds nothing to `total_faltas`. */
  lemma RepeatedOfferingAddsNoAbsences(xs: seq<Enrollment>, x: Enrollment)
    requires FirstAbsence(xs, x.offering).Some?
    ensures TotalAbsences(xs + [x]) == TotalAbsences(xs)
  {
    TotalAbsencesRowwise(xs + [x]);
    TotalAbsencesRowwise(xs);
    assert (xs + [x])[..|xs|] == xs;
  }
}
