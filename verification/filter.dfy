/**
  The filters of the `/admin` dashboard: a free-text query `q`, an `area`
  and a specialty `esp`, each trimmed and lower-cased, applied to the listed
  reports by the comprehension `[r for r in reports if match(r)]`.
 */
module Filter {
  import opened Text
  import opened Clock
  import opened Reports

  /** The three filters after normalisation; "" means "no constraint". */
  datatype Filters = Filters(q: string, area: string, esp: string)

  /** `.strip().lower()` applied to a query-string argument. */
  function Normalize(raw: string): string {
    Lower(Strip(raw))
  }

  /** The filters the dashboard builds from its query string; a missing
      argument arrives as "". */
  function FromQuery(q: string, area: string, esp: string): Filters {
    Filters(Normalize(q), Normalize(area), Normalize(esp))
  }

  const NoFilters := Filters("", "", "")

  /** `match(r)`: each non-empty filter must occur in the lower-cased field it
      is aimed at; the query may occur in the activity or the location. */
  predicate Match(f: Filters, r: Report) {
    && (f.q == [] || Contains(Lower(r.actividad), f.q) || Contains(Lower(r.lugarTrabajo), f.q))
    && (f.area == [] || Contains(Lower(r.areaTrabajo), f.area))
    && (f.esp == [] || Contains(Lower(r.especialidad), f.esp))
  }

  /** `[r for r in reports if match(r)]`. */
  function Apply(f: Filters, reports: seq<Report>): (kept: seq<Report>)
    ensures |kept| <= |reports|
  {
    if reports == [] then []
    else (if Match(f, reports[0]) then [reports[0]] else []) + Apply(f, reports[1..])
  }

  /** `a` is `b` with some elements left out, the rest in their order. */
  predicate IsSubsequence(a: seq<Report>, b: seq<Report>)
    decreases |b|
  {
    if a == [] then true
    else if b == [] then false
    else (a[0] == b[0] && IsSubsequence(a[1..], b[1..])) || IsSubsequence(a, b[1..])
  }

  // ---------------------------------------------------------------------------
  // Properties
  // ---------------------------------------------------------------------------

  /** With no filter set, the dashboard shows the listing unchanged. */
  lemma {:induction false} NoFiltersKeepAll(reports: seq<Report>)
    ensures Apply(NoFilters, reports) == reports
  {
    if reports != [] {
      NoFiltersKeepAll(reports[1..]);
      assert reports == [reports[0]] + reports[1..];
    }
  }

  /** Query-string arguments that are missing or hold only whitespace set no filter. */
  lemma BlankArgumentsSetNoFilter(q: string, area: string, esp: string)
    requires forall k :: 0 <= k < |q| ==> IsSpace(q[k])
    requires forall k :: 0 <= k < |area| ==> IsSpace(area[k])
    requires forall k :: 0 <= k < |esp| ==> IsSpace(esp[k])
    ensures FromQuery(q, area, esp) == NoFilters
  {
    StripEmptyIff(q);
    StripEmptyIff(area);
    StripEmptyIff(esp);
  }

  /** Normalising a normalised filter changes nothing: a lower-cased text
      keeps its whitespace where it was, so `strip()` finds nothing more to
      remove, and `lower()` finds no capital left. */
  lemma NormalizeIdempotent(raw: string)
    ensures Normalize(Normalize(raw)) == Normalize(raw)
  {
    var t := Strip(raw);
    var l := Lower(t);
    StripIsInfix(raw);
    if l != [] {
      assert l[0] == LowerChar(t[0]) && l[|l| - 1] == LowerChar(t[|t| - 1]);
    }
    StripOfTrimmed(l);
    LowerIdempotent(t);
  }

  /** The dashboard hands `q`, `area` and `esp` back to its page after
      normalising them; sent again, they select the same reports. */
  lemma NormalizedFiltersStable(q: string, area: string, esp: string)
    ensures var f := FromQuery(q, area, esp);
      FromQuery(f.q, f.area, f.esp) == f
  {
    NormalizeIdempotent(q);
    NormalizeIdempotent(area);
    NormalizeIdempotent(esp);
  }

  /** The filtered list keeps the listing's order: it is a subsequence. */
  lemma {:induction false} ApplyIsSubsequence(f: Filters, reports: seq<Report>)
    ensures IsSubsequence(Apply(f, reports), reports)
  {
    if reports != [] {
      ApplyIsSubsequence(f, reports[1..]);
      var rest := Apply(f, reports[1..]);
      if Match(f, reports[0]) {
        assert Apply(f, reports) == [reports[0]] + rest;
        assert ([reports[0]] + rest)[1..] == rest;
      } else {
        assert Apply(f, reports) == rest;
      }
    }
  }

  /** A report occurs in the filtered list as often as in the listing when it
      matches, and not at all when it does not. */
  lemma {:induction false} ApplyCounts(f: Filters, reports: seq<Report>, r: Report)
    ensures multiset(Apply(f, reports))[r] == if Match(f, r) then multiset(reports)[r] else 0
  {
    if reports != [] {
      ApplyCounts(f, reports[1..], r);
      assert reports == [reports[0]] + reports[1..];
    }
  }

  /** Membership: a report is shown iff it is listed and matches the filters. */
  lemma ApplyMembership(f: Filters, reports: seq<Report>, r: Report)
    ensures r in Apply(f, reports) <==> r in reports && Match(f, r)
  {
    ApplyCounts(f, reports, r);
  }

  /** Filtering what is already filtered changes nothing. */
  lemma {:induction false} ApplyIdempotent(f: Filters, reports: seq<Report>)
    ensures Apply(f, Apply(f, reports)) == Apply(f, reports)
  {
    if reports != [] {
      ApplyIdempotent(f, reports[1..]);
      var rest := Apply(f, reports[1..]);
      if Match(f, reports[0]) {
        var kept := [reports[0]] + rest;
        assert Apply(f, reports) == kept;
        assert kept[0] == reports[0] && kept[1..] == rest;
        assert Apply(f, kept) == [reports[0]] + Apply(f, rest);
      } else {
        assert Apply(f, reports) == rest;
      }
    }
  }

  /** A subsequence of a newest-first sequence is newest first. */
  lemma {:induction false} SubsequenceNewestFirst(a: seq<Report>, b: seq<Report>)
    requires IsSubsequence(a, b) && NewestFirst(b)
    ensures NewestFirst(a)
    ensures forall x :: x in a ==> x in b
    decreases |b|
  {
    if a != [] {
      if a[0] == b[0] && IsSubsequence(a[1..], b[1..]) {
        SubsequenceNewestFirst(a[1..], b[1..]);
        forall i, j | 0 <= i < j < |a| ensures NotBefore(a[i].createdAt, a[j].createdAt) {
          if i > 0 {
            assert a[i] == a[1..][i - 1] && a[j] == a[1..][j - 1];
          } else {
            assert a[j] in a[1..];
            var k :| 1 <= k < |b| && b[k] == a[j];
          }
        }
        forall x | x in a ensures x in b {
          if x != a[0] {
            assert x in a[1..];
          }
        }
      } else {
        SubsequenceNewestFirst(a, b[1..]);
      }
    }
  }

  /** The dashboard's list of a store listing is newest first, like the listing. */
  lemma FilteredListingNewestFirst(f: Filters, store: seq<Report>, listing: seq<Report>)
    requires IsListing(store, listing)
    ensures NewestFirst(Apply(f, listing))
  {
    ApplyIsSubsequence(f, listing);
    SubsequenceNewestFirst(Apply(f, listing), listing);
  }

  /** The dashboard: from the query string and a listing of the store, it
      shows newest first exactly the stored reports that match, each as often
      as it is stored. */
  lemma DashboardShows(store: seq<Report>, listing: seq<Report>, q: string, area: string, esp: string)
    requires IsListing(store, listing)
    ensures var f := FromQuery(q, area, esp);
      var shown := Apply(f, listing);
      && NewestFirst(shown)
      && forall r :: multiset(shown)[r] == if Match(f, r) then multiset(store)[r] else 0
  {
    var f := FromQuery(q, area, esp);
    FilteredListingNewestFirst(f, store, listing);
    forall r ensures multiset(Apply(f, listing))[r] == if Match(f, r) then multiset(store)[r] else 0 {
      ApplyCounts(f, listing, r);
    }
  }

  /** A worked case: a report about changing a breaker is found by the query
      "BREAKER" and not by the query "nonexistent". */
  lemma BreakerQuery(r: Report)
    requires r.lugarTrabajo == "Sala 3" && r.actividad == "Cambio de breaker"
    ensures Match(Filters("breaker", "", ""), r)
    ensures !Match(Filters("nonexistent", "", ""), r)
  {
    LowerActivity(r.actividad);
    ActivityHasBreaker();
    NothingNonexistent(r.lugarTrabajo);
  }

  /** The two queries of the worked case, as the dashboard normalises them. */
  lemma BreakerQueryFilters()
    ensures FromQuery("BREAKER", "", "") == Filters("breaker", "", "")
  {
    assert Lower("BREAKER") == "breaker";
    QueryOnly("BREAKER", "breaker");
  }

  lemma NonexistentQueryFilters()
    ensures FromQuery("nonexistent", "", "") == Filters("nonexistent", "", "")
  {
    assert Lower("nonexistent") == "nonexistent";
    QueryOnly("nonexistent", "nonexistent");
  }

  /** Filtering on a single word only: the query is that word, lower-cased. */
  lemma QueryOnly(w: string, lowered: string)
    requires w != [] && !IsSpace(w[0]) && !IsSpace(w[|w| - 1]) && Lower(w) == lowered
    ensures FromQuery(w, "", "") == Filters(lowered, "", "")
  {
    NormalizeWord(w);
  }

  /** A query without surrounding whitespace is only lower-cased. */
  lemma NormalizeWord(w: string)
    requires w != [] && !IsSpace(w[0]) && !IsSpace(w[|w| - 1])
    ensures Normalize(w) == Lower(w)
  {
  }

  lemma LowerActivity(act: string)
    requires act == "Cambio de breaker"
    ensures Lower(act) == "cambio de breaker"
  {
  }

  lemma ActivityHasBreaker()
    ensures Contains("cambio de breaker", "breaker")
  {
    assert OccursAt("cambio de breaker", "breaker", 10);
    ContainsIff("cambio de breaker", "breaker");
  }

  lemma NothingNonexistent(place: string)
    requires place == "Sala 3"
    ensures !Contains("cambio de breaker", "nonexistent") && !Contains(Lower(place), "nonexistent")
  {
    FirstCharAbsent("cambio de breaker", "nonexistent");
    PlaceLacksQuery(place);
  }

  lemma PlaceLacksQuery(place: string)
    requires place == "Sala 3"
    ensures !Contains(Lower(place), "nonexistent")
  {
    assert Lower(place) == "sala 3";
    FirstCharAbsent("sala 3", "nonexistent");
  }
}
