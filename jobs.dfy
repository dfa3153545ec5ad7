/**
 * The `linkedin` relation: an auto-increment `id` and ten text columns
 * (migration.py:14-28), the statements the scrapers run against it, and the
 * in-memory `Table` that executes them.
 */
module Jobs {
  import opened Paging

  /** The ten text columns, in the order of the INSERT statements. */
  datatype Job = Job(
    title: string,
    link: string,
    companyName: string,
    companyLink: string,
    source: string,
    location: string,
    salary: string,
    jobType: string,
    description: string,
    postedDate: string)
  {
    /** The three columns the enrichment pass overwrites. */
    function WithDetail(d: Detail): Job {
      this.(description := d.description, jobType := d.jobType, salary := d.salary)
    }
  }

  /** The values a detail page supplies for `job_description`, `job_type` and `salary`. */
  datatype Detail = Detail(description: string, jobType: string, salary: string)

  datatype Row = Row(id: nat, job: Job)

  /** The committed content of the relation and the next value of the id sequence. */
  datatype Store = Store(rows: seq<Row>, nextId: nat)
  {
    /** Ids are positive, below the sequence's next value, and ascend in storage order. */
    ghost predicate Valid() {
      && 1 <= nextId
      && (forall i :: 0 <= i < |rows| ==> 1 <= rows[i].id < nextId)
      && (forall i, j :: 0 <= i < j < |rows| ==> rows[i].id < rows[j].id)
    }
  }

  /** Ids ascend in storage order: the third clause of `Store.Valid`, stated on
      its own for the lemmas about row sequences. */
  predicate IdsAscend(rows: seq<Row>) {
    forall i, j :: 0 <= i < j < |rows| ==> rows[i].id < rows[j].id
  }

  /** A store stays valid when its id sequence has moved further on. */
  lemma LaterNextIdKeepsValid(rows: seq<Row>, n: nat, m: nat)
    requires Store(rows, n).Valid() && n <= m
    ensures Store(rows, m).Valid()
  {
  }

  /** Everything but the three detail columns agrees. */
  predicate SameListing(a: Job, b: Job) {
    && a.title == b.title && a.link == b.link
    && a.companyName == b.companyName && a.companyLink == b.companyLink
    && a.source == b.source && a.location == b.location
    && a.postedDate == b.postedDate
  }

  /** `SELECT 1 FROM linkedin WHERE job_title = %s LIMIT 1` returns a row. */
  predicate HasTitle(rows: seq<Row>, title: string)
    ensures HasTitle(rows, title) <==> exists i :: 0 <= i < |rows| && rows[i].job.title == title
  {
    rows != [] && (rows[0].job.title == title || HasTitle(rows[1..], title))
  }

  /** No two rows share a title: the invariant the title check aims at. */
  ghost predicate DistinctTitles(rows: seq<Row>) {
    forall i, j :: 0 <= i < j < |rows| ==> rows[i].job.title != rows[j].job.title
  }

  /** One INSERT. `accepts` stands for the store's own constraints: a row it
      refuses raises a database error, which the scrapers catch and report. */
  function TryInsert(s: Store, job: Job, accepts: Job -> bool): (r: Store)
    ensures s.Valid() ==> r.Valid()
    ensures s.rows <= r.rows && s.nextId <= r.nextId
    ensures HasTitle(r.rows, job.title) <==> HasTitle(s.rows, job.title) || accepts(job)
  {
    if accepts(job) then
      var r := Store(s.rows + [Row(s.nextId, job)], s.nextId + 1);
      assert r.rows[|s.rows|].job.title == job.title;
      assert forall t :: HasTitle(s.rows, t) ==> HasTitle(r.rows, t) by {
        forall t | HasTitle(s.rows, t) ensures HasTitle(r.rows, t) {
          var i :| 0 <= i < |s.rows| && s.rows[i].job.title == t;
          assert r.rows[i] == s.rows[i];
        }
      }
      r
    else s
  }

  /** main.py `insert_job_data`: the title check, then the INSERT when no row has the title. */
  function InsertIfAbsent(s: Store, job: Job, accepts: Job -> bool): (r: Store)
    ensures s.Valid() ==> r.Valid()
    ensures s.rows <= r.rows && s.nextId <= r.nextId
    ensures HasTitle(s.rows, job.title) ==> r == s
    ensures !HasTitle(s.rows, job.title) && accepts(job) ==> r == Store(s.rows + [Row(s.nextId, job)], s.nextId + 1)
    ensures !HasTitle(s.rows, job.title) && !accepts(job) ==> r == s
    ensures HasTitle(r.rows, job.title) <==> HasTitle(s.rows, job.title) || accepts(job)
    ensures DistinctTitles(s.rows) ==> DistinctTitles(r.rows)
  {
    if HasTitle(s.rows, job.title) then s
    else
      var r := TryInsert(s, job, accepts);
      assert DistinctTitles(s.rows) ==> DistinctTitles(r.rows) by {
        if DistinctTitles(s.rows) && r != s {
          forall i, j | 0 <= i < j < |r.rows| ensures r.rows[i].job.title != r.rows[j].job.title {
            if j == |s.rows| {
              assert r.rows[i] == s.rows[i];
            } else {
              assert r.rows[i] == s.rows[i] && r.rows[j] == s.rows[j];
            }
          }
        }
      }
      r
  }

  /** The dedup writer applied to a batch, in order. */
  function InsertJobs(s: Store, jobs: seq<Job>, accepts: Job -> bool): (r: Store)
    ensures s.Valid() ==> r.Valid()
    ensures s.rows <= r.rows && s.nextId <= r.nextId
    ensures DistinctTitles(s.rows) ==> DistinctTitles(r.rows)
  {
    if jobs == [] then s
    else InsertIfAbsent(InsertJobs(s, jobs[..|jobs| - 1], accepts), jobs[|jobs| - 1], accepts)
  }

  /** A title stored before the batch is still stored after it. */
  lemma KeepsTitle(s: Store, r: Store, t: string)
    requires s.rows <= r.rows && HasTitle(s.rows, t)
    ensures HasTitle(r.rows, t)
  {
    var i :| 0 <= i < |s.rows| && s.rows[i].job.title == t;
    assert r.rows[i] == s.rows[i];
  }

  /** After the batch, the title of every job the store accepts is stored. */
  lemma {:induction false} InsertJobsStoresTitles(s: Store, jobs: seq<Job>, accepts: Job -> bool)
    ensures forall k :: 0 <= k < |jobs| && accepts(jobs[k]) ==> HasTitle(InsertJobs(s, jobs, accepts).rows, jobs[k].title)
  {
    if jobs != [] {
      var n := |jobs| - 1;
      var m := InsertJobs(s, jobs[..n], accepts);
      var r := InsertJobs(s, jobs, accepts);
      InsertJobsStoresTitles(s, jobs[..n], accepts);
      forall k | 0 <= k < |jobs| && accepts(jobs[k]) ensures HasTitle(r.rows, jobs[k].title) {
        if k < n {
          assert jobs[..n][k] == jobs[k];
          KeepsTitle(m, r, jobs[k].title);
        }
      }
    }
  }

  /** The batch adds nothing once every title it could add is already stored. */
  lemma {:induction false} InsertJobsNoChange(s: Store, jobs: seq<Job>, accepts: Job -> bool)
    requires forall k :: 0 <= k < |jobs| && accepts(jobs[k]) ==> HasTitle(s.rows, jobs[k].title)
    ensures InsertJobs(s, jobs, accepts) == s
  {
    if jobs != [] {
      var n := |jobs| - 1;
      assert forall k :: 0 <= k < n ==> jobs[..n][k] == jobs[k];
      InsertJobsNoChange(s, jobs[..n], accepts);
    }
  }

  /** Writing the same batch twice leaves the table as writing it once. */
  lemma InsertJobsIdempotent(s: Store, jobs: seq<Job>, accepts: Job -> bool)
    ensures InsertJobs(InsertJobs(s, jobs, accepts), jobs, accepts) == InsertJobs(s, jobs, accepts)
  {
    InsertJobsStoresTitles(s, jobs, accepts);
    InsertJobsNoChange(InsertJobs(s, jobs, accepts), jobs, accepts);
  }

  /** Number of jobs in the batch that the store accepts. */
  function CountAccepted(jobs: seq<Job>, accepts: Job -> bool): nat {
    if jobs == [] then 0
    else CountAccepted(jobs[..|jobs| - 1], accepts) + (if accepts(jobs[|jobs| - 1]) then 1 else 0)
  }

  /** The jobs of the batch that the store accepts, in batch order. */
  function Accepted(jobs: seq<Job>, accepts: Job -> bool): (r: seq<Job>)
    ensures |r| == CountAccepted(jobs, accepts)
    ensures forall k :: 0 <= k < |r| ==> r[k] in jobs && accepts(r[k])
  {
    if jobs == [] then []
    else
      var prefix := jobs[..|jobs| - 1];
      var last := jobs[|jobs| - 1];
      var r := Accepted(prefix, accepts) + (if accepts(last) then [last] else []);
      assert forall k :: 0 <= k < |r| - 1 ==> r[k] in prefix;
      r
  }

  /** flask_main.py: one INSERT per card, without a title check. */
  function AppendJobs(s: Store, jobs: seq<Job>, accepts: Job -> bool): (r: Store)
    ensures s.Valid() ==> r.Valid()
    ensures s.rows <= r.rows
    ensures |r.rows| == |s.rows| + CountAccepted(jobs, accepts)
    ensures r.nextId == s.nextId + CountAccepted(jobs, accepts)
  {
    if jobs == [] then s
    else TryInsert(AppendJobs(s, jobs[..|jobs| - 1], accepts), jobs[|jobs| - 1], accepts)
  }

  /** The rows a batch adds are its accepted jobs, in batch order, numbered
      from the sequence's value before the batch. */
  lemma {:induction false} AppendJobsRows(s: Store, jobs: seq<Job>, accepts: Job -> bool)
    ensures var r := AppendJobs(s, jobs, accepts);
      var added := Accepted(jobs, accepts);
      && |r.rows| == |s.rows| + |added|
      && r.rows[..|s.rows|] == s.rows
      && forall k :: 0 <= k < |added| ==> r.rows[|s.rows| + k] == Row(s.nextId + k, added[k])
  {
    if jobs != [] {
      var prefix := jobs[..|jobs| - 1];
      var last := jobs[|jobs| - 1];
      AppendJobsRows(s, prefix, accepts);
      var m := AppendJobs(s, prefix, accepts);
      var before := Accepted(prefix, accepts);
      if accepts(last) {
        var r := AppendJobs(s, jobs, accepts);
        assert r.rows == m.rows + [Row(m.nextId, last)];
        assert forall k :: 0 <= k < |before| ==> r.rows[|s.rows| + k] == Row(s.nextId + k, before[k]);
      }
    }
  }

  /** Without the title check the same accepted card stored twice gives two rows
      with one title. */
  lemma AppendJobsDuplicates(s: Store, job: Job, accepts: Job -> bool)
    requires accepts(job)
    ensures var r := AppendJobs(s, [job, job], accepts);
      && |r.rows| == |s.rows| + 2
      && r.rows[|s.rows|].job.title == r.rows[|s.rows| + 1].job.title
      && !DistinctTitles(r.rows)
  {
    assert [job][..0] == [] && [job, job][..1] == [job];
    var r1 := AppendJobs(s, [job], accepts);
    assert r1 == TryInsert(s, job, accepts);
    var r := AppendJobs(s, [job, job], accepts);
    assert r == TryInsert(r1, job, accepts);
    assert r.rows == s.rows + [Row(s.nextId, job), Row(s.nextId + 1, job)];
  }

  /** With the title check the second copy is skipped. */
  lemma InsertJobsSkipsRepeat(s: Store, job: Job, accepts: Job -> bool)
    ensures InsertJobs(s, [job, job], accepts) == InsertJobs(s, [job], accepts)
  {
    assert [job, job][..1] == [job];
    InsertJobsNoChange(InsertJobs(s, [job], accepts), [job], accepts);
  }

  /** The row after `UPDATE ... SET job_description, job_type, salary ... WHERE id = %s`. */
  function SetDetail(row: Row, id: nat, d: Detail, accepts: Job -> bool): (r: Row)
    ensures r.id == row.id && SameListing(r.job, row.job)
    ensures r.id != id ==> r == row
    ensures r == row || r.job == row.job.WithDetail(d)
    ensures r.job == row.job.WithDetail(d) <==> row.job.WithDetail(d) == row.job || (row.id == id && accepts(row.job.WithDetail(d)))
  {
    if row.id == id && accepts(row.job.WithDetail(d)) then row.(job := row.job.WithDetail(d)) else row
  }

  /** The UPDATE by id over the whole relation. */
  function UpdateById(rows: seq<Row>, id: nat, d: Detail, accepts: Job -> bool): (r: seq<Row>)
    ensures |r| == |rows|
  {
    seq(|rows|, k requires 0 <= k < |rows| => SetDetail(rows[k], id, d, accepts))
  }

  /** The UPDATE keeps every id and every listing column, leaves the rows with
      another id alone, gives a row with that id the new detail or leaves it as
      it was, and changes nothing when no row has that id. */
  lemma UpdateByIdMeaning(rows: seq<Row>, id: nat, d: Detail, accepts: Job -> bool)
    ensures var r := UpdateById(rows, id, d, accepts);
      && (forall k :: 0 <= k < |r| ==> r[k].id == rows[k].id && SameListing(r[k].job, rows[k].job))
      && (forall k :: 0 <= k < |r| && rows[k].id != id ==> r[k] == rows[k])
      && (forall k :: 0 <= k < |r| ==> r[k] == rows[k] || r[k].job == rows[k].job.WithDetail(d))
      && (forall k :: 0 <= k < |r| && rows[k].id == id && accepts(rows[k].job.WithDetail(d)) ==>
            r[k] == Row(id, rows[k].job.WithDetail(d)))
      && (forall k :: 0 <= k < |r| && !accepts(rows[k].job.WithDetail(d)) ==> r[k] == rows[k])
      && ((forall k :: 0 <= k < |rows| ==> rows[k].id != id) ==> r == rows)
  {
  }

  /** The `(id, job_link)` pairs of `SELECT id, job_link FROM linkedin`. */
  function IdLinks(rows: seq<Row>): (r: seq<(nat, string)>)
    ensures |r| == |rows|
    ensures forall k :: 0 <= k < |r| ==> r[k] == (rows[k].id, rows[k].job.link)
  {
    seq(|rows|, k requires 0 <= k < |rows| => (rows[k].id, rows[k].job.link))
  }

  /** The relation, updated in place by the statements the scrapers execute. */
  class Table {
    var rows: seq<Row>
    var nextId: nat
    const accepts: Job -> bool

    function State(): Store
      reads this
    {
      Store(rows, nextId)
    }

    ghost predicate Valid()
      reads this
    {
      State().Valid()
    }

    constructor (accepts: Job -> bool)
      ensures Valid() && rows == [] && nextId == 1 && this.accepts == accepts
    {
      rows := [];
      nextId := 1;
      this.accepts := accepts;
    }

    /** `SELECT 1 FROM linkedin WHERE job_title = %s LIMIT 1` */
    method ExistsTitle(title: string) returns (found: bool)
      ensures found <==> exists i :: 0 <= i < |rows| && rows[i].job.title == title
    {
      found := HasTitle(rows, title);
    }

    /** `INSERT INTO linkedin (...) VALUES (...)`; `ok` is false when the store refuses the row. */
    method Insert(job: Job) returns (ok: bool)
      requires Valid()
      modifies this
      ensures Valid()
      ensures ok == accepts(job)
      ensures ok ==> rows == old(rows) + [Row(old(nextId), job)] && nextId == old(nextId) + 1
      ensures !ok ==> rows == old(rows) && nextId == old(nextId)
      ensures State() == TryInsert(old(State()), job, accepts)
    {
      ok := accepts(job);
      if ok {
        rows := rows + [Row(nextId, job)];
        nextId := nextId + 1;
      }
    }

    /** `UPDATE linkedin SET job_description, job_type, salary WHERE id = %s`;
        a row the store refuses keeps its old values. */
    method UpdateDetail(id: nat, d: Detail)
      requires Valid()
      modifies this
      ensures Valid()
      ensures rows == UpdateById(old(rows), id, d, accepts) && nextId == old(nextId)
    {
      UpdateByIdMeaning(rows, id, d, accepts);
      rows := UpdateById(rows, id, d, accepts);
    }

    /** `SELECT id, job_link FROM linkedin LIMIT %s OFFSET %s`, in storage (id) order. */
    method ScanPage(offset: nat, limit: nat) returns (page: seq<(nat, string)>)
      ensures page == IdLinks(Slice(rows, offset, limit))
      ensures |page| <= limit
      ensures page == [] <==> offset >= |rows| || limit == 0
    {
      page := IdLinks(Slice(rows, offset, limit));
    }

    /** A run that raises before `conn.commit()` leaves the committed rows as they
        were; the id sequence is not transactional and keeps its value. */
    method Rollback(saved: seq<Row>)
      requires Store(saved, nextId).Valid()
      modifies this
      ensures Valid()
      ensures rows == saved && nextId == old(nextId)
    {
      rows := saved;
    }
  }
}
