/** Selection and ordering of table rows held as a sequence. */
module Rows {
  import opened Prelude

  function Where<T>(rows: seq<T>, keep: T -> bool): seq<T> {
    if rows == [] then []
    else Where(rows[..|rows| - 1], keep) + if keep(rows[|rows| - 1]) then [rows[|rows| - 1]] else []
  }

  /** `row` put into rows ordered by `rank`, after those of equal rank. */
  function Place<T>(rows: seq<T>, row: T, rank: T -> nat): seq<T> {
    if rows == [] then [row]
    else if rank(rows[|rows| - 1]) <= rank(row) then rows + [row]
    else Place(rows[..|rows| - 1], row, rank) + [rows[|rows| - 1]]
  }

  /** SELECT of the rows that satisfy `keep`, ORDER BY `rank`. */
  function Select<T>(rows: seq<T>, keep: T -> bool, rank: T -> nat): seq<T> {
    if rows == [] then []
    else
      var front := Select(rows[..|rows| - 1], keep, rank);
      if keep(rows[|rows| - 1]) then Place(front, rows[|rows| - 1], rank) else front
  }

  lemma {:induction false} WhereMembers<T>(rows: seq<T>, keep: T -> bool)
    ensures forall r | r in Where(rows, keep) :: r in rows && keep(r)
    ensures forall r | r in rows && keep(r) :: r in Where(rows, keep)
  {
    if rows != [] {
      WhereMembers(rows[..|rows| - 1], keep);
      assert rows == rows[..|rows| - 1] + [rows[|rows| - 1]];
    }
  }

  /** Rows that `keep` rejects do not show in the selection, wherever they are. */
  lemma {:induction false} SelectIgnores<T>(rows: seq<T>, more: seq<T>, keep: T -> bool, rank: T -> nat)
    requires forall r | r in more :: !keep(r)
    ensures Select(rows + more, keep, rank) == Select(rows, keep, rank)
  {
    if more == [] {
      assert rows + more == rows;
    } else {
      assert (rows + more)[..|rows + more| - 1] == rows + more[..|more| - 1];
      assert more[|more| - 1] in more;
      SelectIgnores(rows, more[..|more| - 1], keep, rank);
    }
  }

  lemma {:induction false} SelectAfterWhere<T>(rows: seq<T>, kept: T -> bool, keep: T -> bool, rank: T -> nat)
    requires forall r | r in rows && keep(r) :: kept(r)
    ensures Select(Where(rows, kept), keep, rank) == Select(rows, keep, rank)
  {
    if rows != [] {
      var front, last := rows[..|rows| - 1], rows[|rows| - 1];
      SelectAfterWhere(front, kept, keep, rank);
      assert last in rows;
      if kept(last) {
        assert (Where(front, kept) + [last])[..|Where(front, kept)|] == Where(front, kept);
      } else {
        assert Where(front, kept) + [] == Where(front, kept);
      }
    }
  }

  lemma {:induction false} SelectNone<T>(rows: seq<T>, keep: T -> bool, rank: T -> nat)
    requires forall r | r in rows :: !keep(r)
    ensures Select(rows, keep, rank) == []
  {
    SelectIgnores([], rows, keep, rank);
    assert [] + rows == rows;
  }

  /** Rows added in the order of their rank, to a table that had none of them, are selected as added. */
  lemma {:induction false} SelectAdded<T>(rows: seq<T>, added: seq<T>, keep: T -> bool, rank: T -> nat)
    requires (forall r | r in rows :: !keep(r)) && (forall r | r in added :: keep(r))
    requires forall i, j | 0 <= i < j < |added| :: rank(added[i]) <= rank(added[j])
    ensures Select(rows + added, keep, rank) == added
  {
    if added == [] {
      assert rows + added == rows;
      SelectNone(rows, keep, rank);
    } else {
      var front, last := added[..|added| - 1], added[|added| - 1];
      SelectAdded(rows, front, keep, rank);
      assert (rows + added)[..|rows + added| - 1] == rows + front;
      assert last in added;
      assert front + [last] == added;
    }
  }

  lemma WhereSnoc<T>(rows: seq<T>, row: T, keep: T -> bool)
    ensures Where(rows + [row], keep) == Where(rows, keep) + if keep(row) then [row] else []
  {
    assert (rows + [row])[..|rows|] == rows;
  }

  lemma WhereStep<T>(rows: seq<T>, keep: T -> bool, n: nat)
    requires n < |rows|
    ensures Where(rows[..n + 1], keep) == Where(rows[..n], keep) + if keep(rows[n]) then [rows[n]] else []
  {
    assert rows[..n + 1] == rows[..n] + [rows[n]];
    WhereSnoc(rows[..n], rows[n], keep);
  }

  /** Where exactly the first `cut` rows qualify, they are what is selected. */
  lemma {:induction false} WherePrefix<T>(rows: seq<T>, keep: T -> bool, cut: nat, n: nat)
    requires cut <= |rows| && n <= |rows| && forall i | 0 <= i < |rows| :: keep(rows[i]) <==> i < cut
    ensures Where(rows[..n], keep) == rows[..if n <= cut then n else cut]
  {
    if n > 0 {
      WherePrefix(rows, keep, cut, n - 1);
      assert rows[..n] == rows[..n - 1] + [rows[n - 1]];
      WhereSnoc(rows[..n - 1], rows[n - 1], keep);
    }
  }

  lemma {:induction false} WhereAppend<T>(a: seq<T>, b: seq<T>, keep: T -> bool)
    ensures Where(a + b, keep) == Where(a, keep) + Where(b, keep)
  {
    if b == [] {
      assert a + b == a;
    } else {
      assert (a + b)[..|a + b| - 1] == a + b[..|b| - 1];
      WhereAppend(a, b[..|b| - 1], keep);
    }
  }

  lemma WhereOne<T>(row: T, keep: T -> bool)
    ensures Where([row], keep) == if keep(row) then [row] else []
  {
    assert [row][..0] == [];
  }

  lemma {:induction false} WhereReversed<T>(rows: seq<T>, keep: T -> bool)
    ensures Where(Reversed(rows), keep) == Reversed(Where(rows, keep))
  {
    if rows != [] {
      var rest := rows[1..];
      WhereReversed(rest, keep);
      WhereSnoc(Reversed(rest), rows[0], keep);
      assert rows == [rows[0]] + rest;
      WhereAppend([rows[0]], rest, keep);
      WhereOne(rows[0], keep);
      if keep(rows[0]) {
        assert ([rows[0]] + Where(rest, keep))[1..] == Where(rest, keep);
      } else {
        assert [] + Where(rest, keep) == Where(rest, keep);
      }
    }
  }

  /** Where every row but one qualifies, the others are selected. */
  lemma {:induction false} WhereAllBut<T>(rows: seq<T>, keep: T -> bool, i: nat, n: nat)
    requires i < |rows| && n <= |rows| && forall k | 0 <= k < |rows| :: keep(rows[k]) <==> k != i
    ensures Where(rows[..n], keep) == if n <= i then rows[..n] else rows[..i] + rows[i + 1..n]
  {
    if n > 0 {
      WhereAllBut(rows, keep, i, n - 1);
      assert rows[..n] == rows[..n - 1] + [rows[n - 1]];
      WhereSnoc(rows[..n - 1], rows[n - 1], keep);
      if n > i + 1 { assert rows[i + 1..n] == rows[i + 1..n - 1] + [rows[n - 1]]; }
    }
  }

  /** Selecting twice is selecting by both tests. */
  lemma {:induction false} WhereTwice<T>(rows: seq<T>, first: T -> bool, second: T -> bool, both: T -> bool)
    requires forall r | r in rows :: both(r) <==> first(r) && second(r)
    ensures Where(Where(rows, first), second) == Where(rows, both)
  {
    if rows != [] {
      var front, last := rows[..|rows| - 1], rows[|rows| - 1];
      WhereTwice(front, first, second, both);
      assert last in rows;
      if first(last) {
        WhereSnoc(Where(front, first), last, second);
      } else {
        assert Where(front, first) + [] == Where(front, first);
      }
    }
  }

  lemma {:induction false} WhereAll<T>(rows: seq<T>, keep: T -> bool)
    requires forall i | 0 <= i < |rows| :: keep(rows[i])
    ensures Where(rows, keep) == rows
  {
    if rows != [] { WhereAll(rows[..|rows| - 1], keep); }
  }

  // ---------- the order of a selection ----------

  ghost predicate Sorted<T(!new)>(rows: seq<T>, rank: T -> nat) {
    forall i, j | 0 <= i < j < |rows| :: rank(rows[i]) <= rank(rows[j])
  }

  lemma {:induction false} PlaceMembers<T>(rows: seq<T>, row: T, rank: T -> nat)
    ensures forall r | r in Place(rows, row, rank) :: r in rows || r == row
  {
    if rows != [] { PlaceMembers(rows[..|rows| - 1], row, rank); }
  }

  lemma {:induction false} SelectMembers<T>(rows: seq<T>, keep: T -> bool, rank: T -> nat)
    ensures forall r | r in Select(rows, keep, rank) :: r in rows && keep(r)
  {
    if rows != [] {
      SelectMembers(rows[..|rows| - 1], keep, rank);
      PlaceMembers(Select(rows[..|rows| - 1], keep, rank), rows[|rows| - 1], rank);
    }
  }

  lemma SortedSnoc<T(!new)>(rows: seq<T>, last: T, rank: T -> nat)
    requires Sorted(rows, rank) && forall r | r in rows :: rank(r) <= rank(last)
    ensures Sorted(rows + [last], rank)
  {
    var more := rows + [last];
    forall i, j | 0 <= i < j < |more| ensures rank(more[i]) <= rank(more[j]) {
      assert more[i] == rows[i] && rows[i] in rows;
      if j < |rows| { assert more[j] == rows[j]; }
    }
  }

  lemma SortedFront<T(!new)>(rows: seq<T>, rank: T -> nat)
    requires rows != [] && Sorted(rows, rank)
    ensures Sorted(rows[..|rows| - 1], rank)
    ensures forall r | r in rows :: rank(r) <= rank(rows[|rows| - 1])
  {
  }

  lemma {:induction false} PlaceSorted<T(!new)>(rows: seq<T>, row: T, rank: T -> nat)
    requires Sorted(rows, rank)
    ensures Sorted(Place(rows, row, rank), rank)
  {
    if rows != [] {
      var front, last := rows[..|rows| - 1], rows[|rows| - 1];
      SortedFront(rows, rank);
      if rank(last) <= rank(row) {
        forall r | r in rows ensures rank(r) <= rank(row) {
        }
        SortedSnoc(rows, row, rank);
      } else {
        PlaceSorted(front, row, rank);
        PlaceMembers(front, row, rank);
        FrontMembers(rows);
        SortedSnoc(Place(front, row, rank), last, rank);
      }
    }
  }

  lemma FrontMembers<T>(rows: seq<T>)
    requires rows != []
    ensures forall r | r in rows[..|rows| - 1] :: r in rows
    ensures multiset(rows) == multiset(rows[..|rows| - 1]) + multiset{rows[|rows| - 1]}
  {
    assert rows == rows[..|rows| - 1] + [rows[|rows| - 1]];
  }

  lemma {:induction false} PlaceCounts<T>(rows: seq<T>, row: T, rank: T -> nat)
    ensures multiset(Place(rows, row, rank)) == multiset(rows) + multiset{row}
  {
    if rows != [] {
      PlaceCounts(rows[..|rows| - 1], row, rank);
      FrontMembers(rows);
    }
  }

  /** A selection is ordered by rank, and has each row that qualifies as often as the table. */
  lemma {:induction false} SelectSorted<T(!new)>(rows: seq<T>, keep: T -> bool, rank: T -> nat)
    ensures Sorted(Select(rows, keep, rank), rank)
    ensures multiset(Select(rows, keep, rank)) == multiset(Where(rows, keep))
  {
    if rows != [] {
      var front, last := rows[..|rows| - 1], rows[|rows| - 1];
      SelectSorted(front, keep, rank);
      if keep(last) {
        PlaceSorted(Select(front, keep, rank), last, rank);
        PlaceCounts(Select(front, keep, rank), last, rank);
      } else {
        assert Where(front, keep) + [] == Where(front, keep);
      }
    }
  }

  lemma {:induction false} WhereCounts<T(!new)>(rows: seq<T>, keep: T -> bool, r: T)
    ensures multiset(Where(rows, keep))[r] == if keep(r) then multiset(rows)[r] else 0
  {
    if rows != [] {
      WhereCounts(rows[..|rows| - 1], keep, r);
      assert rows == rows[..|rows| - 1] + [rows[|rows| - 1]];
    }
  }

  /** Different rows that qualify have different ranks. */
  ghost predicate RanksDiffer<T(!new)>(rows: seq<T>, keep: T -> bool, rank: T -> nat) {
    forall a, b | a in rows && b in rows && keep(a) && keep(b) && rank(a) == rank(b) :: a == b
  }

  ghost predicate OneEach<T(!new)>(rows: seq<T>, rank: T -> nat) {
    forall x, y | x in rows && y in rows && rank(x) == rank(y) :: x == y
  }

  lemma SameLast<T(!new)>(a: seq<T>, b: seq<T>, rank: T -> nat)
    requires a != [] && b != [] && Sorted(a, rank) && Sorted(b, rank) && multiset(a) == multiset(b)
    requires OneEach(a, rank)
    ensures a[|a| - 1] == b[|b| - 1]
  {
    var x, y := a[|a| - 1], b[|b| - 1];
    SortedFront(a, rank);
    SortedFront(b, rank);
    assert x in multiset(b) && y in multiset(a);
    assert x in b && y in a;
  }

  lemma SameFronts<T(!new)>(a: seq<T>, b: seq<T>)
    requires a != [] && b != [] && multiset(a) == multiset(b) && a[|a| - 1] == b[|b| - 1]
    ensures multiset(a[..|a| - 1]) == multiset(b[..|b| - 1])
  {
    FrontMembers(a);
    FrontMembers(b);
    assert multiset(a[..|a| - 1]) == multiset(a) - multiset{a[|a| - 1]};
  }

  lemma OneEachInFront<T(!new)>(a: seq<T>, rank: T -> nat)
    requires a != [] && OneEach(a, rank)
    ensures OneEach(a[..|a| - 1], rank)
  {
    FrontMembers(a);
  }

  lemma SameLength<T>(a: seq<T>, b: seq<T>)
    requires multiset(a) == multiset(b)
    ensures |a| == |b|
  {
    assert |multiset(a)| == |a| && |multiset(b)| == |b|;
  }

  lemma {:induction false} OneOrder<T(!new)>(a: seq<T>, b: seq<T>, rank: T -> nat)
    requires Sorted(a, rank) && Sorted(b, rank) && multiset(a) == multiset(b) && OneEach(a, rank)
    ensures a == b
    decreases |a|
  {
    SameLength(a, b);
    if a != [] {
      SameLast(a, b, rank);
      SameFronts(a, b);
      OneEachInFront(a, rank);
      SortedFront(a, rank);
      SortedFront(b, rank);
      OneOrder(a[..|a| - 1], b[..|b| - 1], rank);
      assert a == a[..|a| - 1] + [a[|a| - 1]] && b == b[..|b| - 1] + [b[|b| - 1]];
    }
  }

  /** Where different rows have different ranks, the order they are stored in does not matter. */
  lemma SelectAnyOrder<T(!new)>(rows: seq<T>, rows': seq<T>, keep: T -> bool, rank: T -> nat)
    requires multiset(rows) == multiset(rows') && RanksDiffer(rows, keep, rank)
    ensures Select(rows, keep, rank) == Select(rows', keep, rank)
  {
    var a, b := Select(rows, keep, rank), Select(rows', keep, rank);
    SelectSorted(rows, keep, rank);
    SelectSorted(rows', keep, rank);
    forall r ensures multiset(Where(rows, keep))[r] == multiset(Where(rows', keep))[r] {
      WhereCounts(rows, keep, r);
      WhereCounts(rows', keep, r);
    }
    forall r | r in a ensures r in rows && keep(r) {
      assert r in multiset(a);
      WhereCounts(rows, keep, r);
      assert r in multiset(rows);
    }
    OneOrder(a, b, rank);
  }
}
