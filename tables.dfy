/** A table is a sequence of rows in storage order; the two query shapes used by
    the services are a `where` filter (`findMany`, `select().where`) and the first
    row of such a filter (`findFirst`). */
module Tables {
  import opened Common

  /** The rows satisfying `keep`, in storage order. */
  function Where<T(!new)>(rows: seq<T>, keep: T -> bool): (r: seq<T>)
    ensures |r| <= |rows|
    ensures forall x :: x in r <==> x in rows && keep(x)
    decreases |rows|
  {
    if rows == [] then []
    else
      if keep(rows[0]) then [rows[0]] + Where(rows[1..], keep)
      else Where(rows[1..], keep)
  }

  /** The first row satisfying `hit`, if any. */
  function FindFirst<T(!new)>(rows: seq<T>, hit: T -> bool): (r: Option<T>)
    ensures r.None? <==> Where(rows, hit) == []
    ensures r.Some? ==> r.value == Where(rows, hit)[0]
    ensures r.Some? ==> exists i :: 0 <= i < |rows| && rows[i] == r.value && hit(rows[i]) &&
                                    forall j :: 0 <= j < i ==> !hit(rows[j])
    decreases |rows|
  {
    if rows == [] then None
    else if hit(rows[0]) then Some(rows[0])
    else
      var r := FindFirst(rows[1..], hit);
      assert r.Some? ==> exists i :: 0 <= i < |rows| && rows[i] == r.value && hit(rows[i]) &&
                                    forall j :: 0 <= j < i ==> !hit(rows[j]) by {
        if r.Some? {
          var k :| 0 <= k < |rows[1..]| && rows[1..][k] == r.value && hit(rows[1..][k]) &&
                   forall j :: 0 <= j < k ==> !hit(rows[1..][j]);
          assert rows[k + 1] == r.value;
          assert forall j :: 0 <= j < k + 1 ==> !hit(rows[j]) by {
            forall j | 0 <= j < k + 1 ensures !hit(rows[j]) {
              if j > 0 { assert rows[j] == rows[1..][j - 1]; }
            }
          }
        }
      }
      r
  }

  /** Filtering distributes over concatenation: appending rows to a table appends
      their matches to every filtered view, in order. */
  lemma {:induction false} WhereAppend<T(!new)>(a: seq<T>, b: seq<T>, keep: T -> bool)
    ensures Where(a + b, keep) == Where(a, keep) + Where(b, keep)
    decreases |a|
  {
    if a == [] {
      assert a + b == b;
    } else {
      var ab := a + b;
      assert ab[0] == a[0] && ab[1..] == a[1..] + b;
      WhereAppend(a[1..], b, keep);
      if keep(a[0]) {
        calc {
          Where(ab, keep);
          [a[0]] + Where(a[1..] + b, keep);
          [a[0]] + (Where(a[1..], keep) + Where(b, keep));
          ([a[0]] + Where(a[1..], keep)) + Where(b, keep);
        }
      } else {
        assert Where(ab, keep) == Where(a[1..] + b, keep);
      }
    }
  }

  /** Appending one row: it joins the view exactly when it satisfies the filter. */
  lemma WhereSnoc<T(!new)>(rows: seq<T>, x: T, keep: T -> bool)
    ensures Where(rows + [x], keep) == Where(rows, keep) + (if keep(x) then [x] else [])
  {
    WhereAppend(rows, [x], keep);
    assert Where([x], keep) == if keep(x) then [x] else [] by {
      assert [x][1..] == [];
    }
  }

  /** A filter every row passes returns the whole table, and only then. */
  lemma {:induction false} WhereAll<T(!new)>(rows: seq<T>, keep: T -> bool)
    ensures Where(rows, keep) == rows <==> forall x :: x in rows ==> keep(x)
    decreases |rows|
  {
    if rows != [] {
      WhereAll(rows[1..], keep);
      if Where(rows, keep) == rows {
        assert |Where(rows[1..], keep)| <= |rows[1..]|;
      }
    }
  }

  /** Appending a row does not change the first match when some earlier row
      already matches, and makes the new row the first match otherwise. */
  lemma FindFirstSnoc<T(!new)>(rows: seq<T>, x: T, hit: T -> bool)
    ensures FindFirst(rows + [x], hit) ==
      if FindFirst(rows, hit).Some? then FindFirst(rows, hit)
      else if hit(x) then Some(x) else None
  {
    WhereSnoc(rows, x, hit);
  }

  /** Two filters that agree on every row of a table select the same rows. */
  lemma {:induction false} WhereCongruent<T(!new)>(rows: seq<T>, p: T -> bool, q: T -> bool)
    requires forall x :: x in rows ==> p(x) == q(x)
    ensures Where(rows, p) == Where(rows, q)
    decreases |rows|
  {
    if rows != [] {
      assert rows[0] in rows;
      assert forall x :: x in rows[1..] ==> x in rows;
      WhereCongruent(rows[1..], p, q);
    }
  }

  /** A filter keeps each matching row as many times as the table holds it and
      drops every other row. */
  lemma {:induction false} WhereCounts<T(!new)>(rows: seq<T>, keep: T -> bool)
    ensures forall x :: multiset(Where(rows, keep))[x] == if keep(x) then multiset(rows)[x] else 0
    decreases |rows|
  {
    if rows != [] {
      assert rows == [rows[0]] + rows[1..];
      WhereCounts(rows[1..], keep);
    }
  }
}
