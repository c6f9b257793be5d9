/** The per-student status features: the status of the latest event and the
    number of distinct academic terms. The change date is compared as text,
    which is how `sort_values` orders a column read from CSV, and events
    without a date sort after every dated one. */
module StatusResolver {
  import opened Wrappers
  import opened Seqs
  import opened Frames
  import opened Records

  /** The status events of one student, in table order. */
  function EventsOf(evs: seq<StatusEvent>, s: string): (r: seq<StatusEvent>)
    ensures forall i | 0 <= i < |r| :: r[i].student == s && r[i] in evs
    ensures forall i | 0 <= i < |evs| :: evs[i].student == s ==> evs[i] in r
    ensures |r| == 0 <==> forall i | 0 <= i < |evs| :: evs[i].student != s
  {
    var r := Filter(evs, (e: StatusEvent) => e.student == s);
    assert |r| > 0 ==> r[0] in evs;
    r
  }

  /** Each row of student `s` is kept as often as it occurs, and no other
      row is. */
  lemma EventsOfCounts(evs: seq<StatusEvent>, s: string)
    ensures forall e :: multiset(EventsOf(evs, s))[e] == if e.student == s then multiset(evs)[e] else 0
  {
    FilterCounts(evs, (e: StatusEvent) => e.student == s);
  }

  // ------------------------------------------------------------ date order

  /** Python's `a <= b` on strings: code point by code point, a proper
      prefix first. */
  predicate LexLe(a: string, b: string) {
    |a| == 0 || (|b| > 0 && (a[0] < b[0] || (a[0] == b[0] && LexLe(a[1..], b[1..]))))
  }

  lemma {:induction false} LexLeTotal(a: string, b: string)
    ensures LexLe(a, b) || LexLe(b, a)
  {
    if |a| > 0 && |b| > 0 && a[0] == b[0] {
      LexLeTotal(a[1..], b[1..]);
    }
  }

  lemma {:induction false} LexLeReflexive(a: string)
    ensures LexLe(a, a)
  {
    if |a| > 0 {
      LexLeReflexive(a[1..]);
    }
  }

  lemma {:induction false} LexLeTransitive(a: string, b: string, c: string)
    requires LexLe(a, b) && LexLe(b, c)
    ensures LexLe(a, c)
  {
    if |a| > 0 && a[0] == b[0] && b[0] == c[0] {
      LexLeTransitive(a[1..], b[1..], c[1..]);
    }
  }

  lemma {:induction false} LexLeAntisymmetric(a: string, b: string)
    requires LexLe(a, b) && LexLe(b, a)
    ensures a == b
  {
    if |a| > 0 {
      LexLeAntisymmetric(a[1..], b[1..]);
    }
  }

  /** The order `sort_values` puts change dates in: text order, a missing
      date last. */
  predicate DateLe(a: Option<string>, b: Option<string>) {
    match (a, b)
    case (_, None) => true
    case (None, Some(_)) => false
    case (Some(x), Some(y)) => LexLe(x, y)
  }

  lemma DateLeTotal(a: Option<string>, b: Option<string>)
    ensures DateLe(a, b) || DateLe(b, a)
  {
    if a.Some? && b.Some? {
      LexLeTotal(a.value, b.value);
    }
  }

  lemma DateLeReflexive(a: Option<string>)
    ensures DateLe(a, a)
  {
    if a.Some? {
      LexLeReflexive(a.value);
    }
  }

  lemma DateLeTransitive(a: Option<string>, b: Option<string>, c: Option<string>)
    requires DateLe(a, b) && DateLe(b, c)
    ensures DateLe(a, c)
  {
    if a.Some? && b.Some? && c.Some? {
      LexLeTransitive(a.value, b.value, c.value);
    }
  }

  // ----------------------------------------------------------- last status

  /** The row `sort_values(date).groupby(id).tail(1)` keeps for one student:
      an event whose date is greatest in the date order. Among events of
      equal date this model keeps the later one in table order; the source's
      unstable sort fixes no such choice, and nothing below depends on it. */
  function Latest(evs: seq<StatusEvent>): (r: Option<StatusEvent>)
    ensures r.None? <==> |evs| == 0
    ensures r.Some? ==> r.value in evs
    ensures r.Some? ==> forall i | 0 <= i < |evs| :: DateLe(evs[i].date, r.value.date)
  {
    if |evs| == 0 then None
    else
      var init := evs[..|evs| - 1];
      var last := evs[|evs| - 1];
      var p := Latest(init);
      if p.None? || DateLe(p.value.date, last.date) then
        assert forall i | 0 <= i < |init| :: DateLe(evs[i].date, last.date) by {
          forall i | 0 <= i < |init|
            ensures DateLe(evs[i].date, last.date)
          {
            assert evs[i] == init[i];
            DateLeTransitive(evs[i].date, p.value.date, last.date);
          }
        }
        DateLeReflexive(last.date);
        Some(last)
      else
        DateLeTotal(p.value.date, last.date);
        assert forall i | 0 <= i < |init| :: evs[i] == init[i];
        p
  }

  /** With every event dated, the kept event carries the latest date. */
  lemma LatestOfDatedEvents(evs: seq<StatusEvent>)
    requires |evs| > 0
    requires forall i | 0 <= i < |evs| :: evs[i].date.Some?
    ensures Latest(evs).value.date.Some?
    ensures forall i | 0 <= i < |evs| :: LexLe(evs[i].date.value, Latest(evs).value.date.value)
  {
    var r := Latest(evs).value;
    assert r in evs;
  }

  /** An event without a date sorts last, so it is the one kept. */
  lemma LatestPrefersUndated(evs: seq<StatusEvent>, i: nat)
    requires i < |evs| && evs[i].date.None?
    ensures Latest(evs).value.date.None?
  {
  }

  // ---------------------------------------------------------------- terms

  /** Of an event in March and one in September of 2021, the September
      one is the latest, in either table order. */
  lemma LaterDateWins(a: StatusEvent, b: StatusEvent)
    requires a.date == Some("2021-03-01") && b.date == Some("2021-09-01")
    ensures Latest([a, b]) == Some(b)
    ensures Latest([b, a]) == Some(b)
  {
    var x, y := "2021-03-01", "2021-09-01";
    assert !LexLe(y, x) by {
      assert y[..6] == x[..6] && y[6] > x[6];
      assert y[1..][1..][1..][1..][1..][1..] == y[6..];
      assert x[1..][1..][1..][1..][1..][1..] == x[6..];
      assert !LexLe(y[6..], x[6..]);
    }
    assert !DateLe(b.date, a.date);
  }

  /** `ano_alteracao_situacao.astype(str) + "." + periodo_alteracao_situacao.astype(str)`. */
  function TermKey(e: StatusEvent, numText: real -> string): string {
    AsText(e.year, numText) + "." + AsText(e.period, numText)
  }

  /** The distinct term strings of the events (`nunique` of `semestre`). */
  function Terms(evs: seq<StatusEvent>, numText: real -> string): set<string> {
    set e | e in evs :: TermKey(e, numText)
  }

  /** Joining with a dot loses nothing when the year text has no dot: equal
      term strings come from equal (year, period) texts. */
  lemma TermKeyInjective(y1: string, p1: string, y2: string, p2: string)
    requires '.' !in y1 && '.' !in y2
    requires y1 + "." + p1 == y2 + "." + p2
    ensures y1 == y2 && p1 == p2
  {
    var s := y1 + "." + p1;
    FirstDotAfterYear(y1, p1);
    FirstDotAfterYear(y2, p2);
    assert y1 == s[..|y1|] == y2;
    assert p1 == s[|y1| + 1..] == p2;
  }

  /** In a term string whose year has no dot, the first dot is the
      separator. */
  lemma {:induction false} FirstDotAfterYear(y: string, p: string)
    requires '.' !in y
    ensures '.' in y + "." + p && IndexOf(y + "." + p, '.') == |y|
  {
    var s := y + "." + p;
    assert s[|y|] == '.';
    if |y| > 0 {
      assert s[1..] == y[1..] + "." + p;
      assert '.' !in y[1..] by {
        assert forall c | c in y[1..] :: c in y;
      }
      FirstDotAfterYear(y[1..], p);
    }
  }

  /** Events of one term add one term however many there are. */
  lemma RepeatedTermCountsOnce(evs: seq<StatusEvent>, e: StatusEvent, numText: real -> string)
    requires exists d | d in evs :: TermKey(d, numText) == TermKey(e, numText)
    ensures Terms(evs + [e], numText) == Terms(evs, numText)
  {
    assert forall d :: d in evs + [e] <==> d in evs || d == e;
  }
}
