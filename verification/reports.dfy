/**
  The `Report` record and the report store. The store is append-only: a
  submission adds one row and nothing ever updates or deletes one. Every read
  asks for the rows ordered by `created_at`, newest first, and nothing else;
  rows with equal timestamps may come back in any order.
 */
module Reports {
  import opened Wrappers
  import opened Text
  import opened Clock

  /** One stored field-work report. A photo reference is `None` when the
      column is NULL. */
  datatype Report = Report(
    id: int,
    areaTrabajo: string,
    lugarTrabajo: string,
    especialidad: string,
    actividad: string,
    fotoAntes: Option<string>,
    fotoDespues: Option<string>,
    createdAt: DateTime)

  /** What a submission hands to the store: every column except the two the
      database fills in, `id` and `created_at`. */
  datatype Draft = Draft(
    areaTrabajo: string,
    lugarTrabajo: string,
    especialidad: string,
    actividad: string,
    fotoAntes: Option<string>,
    fotoDespues: Option<string>)

  /** `db.session.add(report); db.session.commit()`, with the `id` the
      database assigns and the `created_at` its default reads from the clock
      given as inputs. */
  function Commit(store: seq<Report>, d: Draft, id: int, now: DateTime): (s: seq<Report>)
    ensures |s| == |store| + 1 && s[..|store|] == store
    ensures s[|store|].id == id && s[|store|].createdAt == now
  {
    store + [Report(id, d.areaTrabajo, d.lugarTrabajo, d.especialidad, d.actividad,
                    d.fotoAntes, d.fotoDespues, now)]
  }

  /** The stored record carries the submitted columns unchanged. */
  lemma CommitKeepsDraft(store: seq<Report>, d: Draft, id: int, now: DateTime)
    ensures var r := Commit(store, d, id, now)[|store|];
      && r.areaTrabajo == d.areaTrabajo && r.lugarTrabajo == d.lugarTrabajo
      && r.especialidad == d.especialidad && r.actividad == d.actividad
      && r.fotoAntes == d.fotoAntes && r.fotoDespues == d.fotoDespues
  {
  }

  // ---------------------------------------------------------------------------
  // Reading the store back: ORDER BY created_at DESC
  // ---------------------------------------------------------------------------

  /** Non-increasing in `created_at`; no order is implied among equal timestamps. */
  predicate NewestFirst(rs: seq<Report>) {
    forall i, j :: 0 <= i < j < |rs| ==> NotBefore(rs[i].createdAt, rs[j].createdAt)
  }

  /** `listing` is an answer the database may give to
      `Report.query.order_by(Report.created_at.desc()).all()` on `store`:
      every stored row exactly once, newest first. */
  predicate IsListing(store: seq<Report>, listing: seq<Report>) {
    multiset(listing) == multiset(store) && NewestFirst(listing)
  }

  function Times(rs: seq<Report>): (ts: seq<DateTime>)
    ensures |ts| == |rs| && forall i :: 0 <= i < |rs| ==> ts[i] == rs[i].createdAt
  {
    seq(|rs|, i requires 0 <= i < |rs| => rs[i].createdAt)
  }

  /** A listing holds as many rows as the store. */
  lemma ListingSize(store: seq<Report>, listing: seq<Report>)
    requires IsListing(store, listing)
    ensures |listing| == |store|
  {
    assert |multiset(listing)| == |multiset(store)|;
  }

  /** Removing one row keeps a listing newest first. */
  lemma RemoveKeepsNewestFirst(b: seq<Report>, j: int)
    requires NewestFirst(b) && 0 <= j < |b|
    ensures NewestFirst(b[..j] + b[j + 1..])
  {
    var b' := b[..j] + b[j + 1..];
    forall p, q | 0 <= p < q < |b'| ensures NotBefore(b'[p].createdAt, b'[q].createdAt) {
      var p' := if p < j then p else p + 1;
      var q' := if q < j then q else q + 1;
      assert b'[p] == b[p'] && b'[q] == b[q'];
    }
  }

  /** In a newest-first sequence, every row up to one that is as new as the
      first row carries the first row's timestamp. */
  lemma HeadTies(b: seq<Report>, j: int)
    requires NewestFirst(b) && 0 <= j < |b| && b[j].createdAt == b[0].createdAt
    ensures forall i :: 0 <= i <= j ==> b[i].createdAt == b[0].createdAt
  {
    forall i | 0 < i < j ensures b[i].createdAt == b[0].createdAt {
      assert NotBefore(b[0].createdAt, b[i].createdAt);
      assert NotBefore(b[i].createdAt, b[j].createdAt);
      NotBeforeTotalOrder(b[0].createdAt, b[i].createdAt, b[0].createdAt);
    }
  }

  /** Two newest-first sequences with the same rows start with the same timestamp. */
  lemma SameNewest(a: seq<Report>, b: seq<Report>) returns (j: int)
    requires NewestFirst(a) && NewestFirst(b) && a != []
    requires multiset(a) == multiset(b)
    ensures 0 <= j < |b| && b[j] == a[0] && b[0].createdAt == a[0].createdAt
  {
    assert a[0] in multiset(b);
    j :| 0 <= j < |b| && b[j] == a[0];
    assert b[0] in multiset(a);
    var k :| 0 <= k < |a| && a[k] == b[0];
    assert NotBefore(b[0].createdAt, b[j].createdAt) by {
      NotBeforeTotalOrder(b[0].createdAt, b[0].createdAt, b[0].createdAt);
    }
    assert NotBefore(a[0].createdAt, a[k].createdAt) by {
      NotBeforeTotalOrder(a[0].createdAt, a[0].createdAt, a[0].createdAt);
    }
    NotBeforeTotalOrder(b[0].createdAt, a[0].createdAt, b[0].createdAt);
  }

  /** Taking the first row out of `a` and the same row out of `b` leaves
      equal multisets. */
  lemma RemoveMatchingHead(a: seq<Report>, b: seq<Report>, j: int)
    requires multiset(a) == multiset(b) && a != [] && 0 <= j < |b| && b[j] == a[0]
    ensures multiset(b[..j] + b[j + 1..]) == multiset(a[1..])
  {
    assert b == b[..j] + [b[j]] + b[j + 1..];
    assert a == [a[0]] + a[1..];
    calc {
      multiset(b[..j] + b[j + 1..]);
      multiset(b[..j]) + multiset(b[j + 1..]);
      multiset(b[..j] + [b[j]] + b[j + 1..]) - multiset{a[0]};
      multiset(a) - multiset{a[0]};
      multiset([a[0]] + a[1..]) - multiset{a[0]};
      multiset(a[1..]);
    }
  }

  /** The order is fixed up to ties: any two newest-first sequences holding
      the same rows show the same timestamp at every position, so they differ
      at most by the order of rows created at the same instant. */
  lemma {:induction false} ListingsAgreeOnTimes(a: seq<Report>, b: seq<Report>)
    requires NewestFirst(a) && NewestFirst(b)
    requires multiset(a) == multiset(b)
    ensures Times(a) == Times(b)
    decreases |a|
  {
    assert |multiset(a)| == |multiset(b)|;
    if a != [] {
      var j := SameNewest(a, b);
      HeadTies(b, j);
      var b' := b[..j] + b[j + 1..];
      RemoveMatchingHead(a, b, j);
      RemoveKeepsNewestFirst(b, j);
      ListingsAgreeOnTimes(a[1..], b');
      forall i | 0 < i < |a| ensures a[i].createdAt == b[i].createdAt {
        assert a[i] == a[1..][i - 1];
        assert Times(a[1..])[i - 1] == Times(b')[i - 1];
        if i - 1 < j {
          assert b'[i - 1] == b[i - 1];
        } else {
          assert b'[i - 1] == b[i];
        }
      }
    }
  }

  /** Corollary for the store: all listings of one store agree on timestamps. */
  lemma ListingsOfStoreAgree(store: seq<Report>, a: seq<Report>, b: seq<Report>)
    requires IsListing(store, a) && IsListing(store, b)
    ensures Times(a) == Times(b)
  {
    ListingsAgreeOnTimes(a, b);
  }

  /** Places `r` before the first row it is not older than. */
  function Insert(r: Report, rs: seq<Report>): (out: seq<Report>)
    ensures multiset(out) == multiset(rs) + multiset{r}
  {
    if rs == [] || NotBefore(r.createdAt, rs[0].createdAt) then [r] + rs
    else
      assert rs == [rs[0]] + rs[1..];
      [rs[0]] + Insert(r, rs[1..])
  }

  /** No row of `rs` is newer than `t`. */
  predicate NoneNewer(t: DateTime, rs: seq<Report>) {
    forall i :: 0 <= i < |rs| ==> NotBefore(t, rs[i].createdAt)
  }

  lemma ConsNewestFirst(x: Report, rs: seq<Report>)
    requires NewestFirst(rs) && NoneNewer(x.createdAt, rs)
    ensures NewestFirst([x] + rs)
  {
    var out := [x] + rs;
    forall i, j | 0 <= i < j < |out| ensures NotBefore(out[i].createdAt, out[j].createdAt) {
      assert out[j] == rs[j - 1];
      if i > 0 {
        assert out[i] == rs[i - 1];
      }
    }
  }

  lemma InsertNoneNewer(t: DateTime, r: Report, rs: seq<Report>)
    requires NotBefore(t, r.createdAt) && NoneNewer(t, rs)
    ensures NoneNewer(t, Insert(r, rs))
  {
    var out := Insert(r, rs);
    forall i | 0 <= i < |out| ensures NotBefore(t, out[i].createdAt) {
      assert out[i] in multiset(rs) + multiset{r};
      if out[i] != r {
        assert out[i] in rs;
      }
    }
  }

  /** Inserting into a newest-first sequence keeps it newest first. */
  lemma {:induction false} InsertKeepsNewestFirst(r: Report, rs: seq<Report>)
    requires NewestFirst(rs)
    ensures NewestFirst(Insert(r, rs))
  {
    if rs == [] || NotBefore(r.createdAt, rs[0].createdAt) {
      forall j | 0 <= j < |rs| ensures NotBefore(r.createdAt, rs[j].createdAt) {
        if j > 0 {
          NotBeforeTotalOrder(r.createdAt, rs[0].createdAt, rs[j].createdAt);
        }
      }
      ConsNewestFirst(r, rs);
    } else {
      assert NewestFirst(rs[1..]) by {
        forall i, j | 0 <= i < j < |rs[1..]| ensures NotBefore(rs[1..][i].createdAt, rs[1..][j].createdAt) {
          assert rs[1..][i] == rs[i + 1] && rs[1..][j] == rs[j + 1];
        }
      }
      InsertKeepsNewestFirst(r, rs[1..]);
      NotBeforeTotalOrder(r.createdAt, rs[0].createdAt, rs[0].createdAt);
      assert NoneNewer(rs[0].createdAt, rs[1..]) by {
        forall j | 0 <= j < |rs[1..]| ensures NotBefore(rs[0].createdAt, rs[1..][j].createdAt) {
          assert rs[1..][j] == rs[j + 1];
        }
      }
      InsertNoneNewer(rs[0].createdAt, r, rs[1..]);
      ConsNewestFirst(rs[0], Insert(r, rs[1..]));
    }
  }

  /** Every store can be listed: the rows, in some newest-first order. */
  lemma {:induction false} ListingExists(store: seq<Report>)
    ensures exists listing :: IsListing(store, listing)
  {
    if store != [] {
      var rest := store[..|store| - 1];
      ListingExists(rest);
      var l :| IsListing(rest, l);
      InsertKeepsNewestFirst(store[|store| - 1], l);
      assert store == rest + [store[|store| - 1]];
      assert IsListing(store, Insert(store[|store| - 1], l));
    } else {
      assert IsListing(store, []);
    }
  }

  /** No tiebreak is implied: two rows created at the same instant may be
      listed in either order. */
  lemma TiesInEitherOrder(r1: Report, r2: Report)
    requires r1.createdAt == r2.createdAt
    ensures IsListing([r1, r2], [r1, r2]) && IsListing([r1, r2], [r2, r1])
  {
    NotBeforeTotalOrder(r1.createdAt, r2.createdAt, r2.createdAt);
    assert multiset([r2, r1]) == multiset([r1, r2]);
  }
}
