/** Generic in-memory tables: the part of the ORM the controllers rely on.
    A table is a map from auto-increment row id to row, plus the next id the
    sequence will hand out.  Without an ORDER BY the database hands rows back
    in insertion order, which here is ascending id. */
module Tables {

  datatype Option<+T> = None | Some(value: T)

  predicate Increasing(s: seq<nat>)
  {
    forall i, j :: 0 <= i < j < |s| ==> s[i] < s[j]
  }

  /** The elements of an id sequence, as a set. */
  function Elems(s: seq<nat>): set<nat>
  {
    set x | x in s
  }

  /** An increasing sequence has no repeats, so it has as many elements as its set. */
  lemma {:induction false} IncreasingCard(s: seq<nat>)
    requires Increasing(s)
    ensures |Elems(s)| == |s|
  {
    if s != [] {
      var init, last := s[..|s| - 1], s[|s| - 1];
      assert Increasing(init);
      IncreasingCard(init);
      assert last !in Elems(init) by {
        forall x | x in init ensures x < last {
          var i :| 0 <= i < |init| && init[i] == x;
          assert s[i] == init[i];
        }
      }
      assert Elems(s) == Elems(init) + {last} by {
        assert s == init + [last];
      }
    }
  }

  /** `orderBy(created_at, desc)`: ids, newest first. */
  function Reverse(s: seq<nat>): (r: seq<nat>)
    ensures |r| == |s|
    ensures forall i :: 0 <= i < |s| ==> r[i] == s[|s| - 1 - i]
  {
    seq(|s|, i requires 0 <= i < |s| => s[|s| - 1 - i])
  }

  /** The ids of `rows` below `bound`, in ascending order. */
  function IdsBelow<T>(rows: map<nat, T>, bound: nat): seq<nat>
    decreases bound
  {
    if bound == 0 then []
    else IdsBelow(rows, bound - 1) + (if bound - 1 in rows then [bound - 1] else [])
  }

  lemma {:induction false} IdsBelowSpec<T>(rows: map<nat, T>, bound: nat)
    ensures forall k :: k in IdsBelow(rows, bound) <==> k in rows && k < bound
    ensures Increasing(IdsBelow(rows, bound))
    ensures forall i :: 0 <= i < |IdsBelow(rows, bound)| ==> IdsBelow(rows, bound)[i] < bound
    decreases bound
  {
    if bound > 0 {
      IdsBelowSpec(rows, bound - 1);
    }
  }

  /** The ids among `ids` whose row satisfies `p`, in the order of `ids`. */
  function Select<T>(rows: map<nat, T>, ids: seq<nat>, p: T -> bool): seq<nat>
    decreases |ids|
  {
    if ids == [] then []
    else
      var last := ids[|ids| - 1];
      Select(rows, ids[..|ids| - 1], p) + (if last in rows && p(rows[last]) then [last] else [])
  }

  lemma {:induction false} SelectSpec<T>(rows: map<nat, T>, ids: seq<nat>, p: T -> bool)
    ensures forall k :: k in Select(rows, ids, p) <==> k in ids && k in rows && p(rows[k])
    ensures Increasing(ids) ==> Increasing(Select(rows, ids, p))
    ensures |Select(rows, ids, p)| <= |ids|
    decreases |ids|
  {
    if ids != [] {
      var init := ids[..|ids| - 1];
      SelectSpec(rows, init, p);
      assert ids == init + [ids[|ids| - 1]];
      if Increasing(ids) {
        assert Increasing(init);
        var s := Select(rows, init, p);
        forall i | 0 <= i < |s| ensures s[i] < ids[|ids| - 1] {
          assert s[i] in init;
        }
      }
    }
  }

  /** Selecting a prefix one element longer adds at most that element. */
  lemma SelectSnoc<T>(rows: map<nat, T>, ids: seq<nat>, i: nat, p: T -> bool)
    requires i < |ids|
    ensures Select(rows, ids[..i + 1], p)
         == Select(rows, ids[..i], p) + (if ids[i] in rows && p(rows[ids[i]]) then [ids[i]] else [])
  {
    assert ids[..i + 1][..i] == ids[..i];
  }

  /** The ids among `ids` that `keep` accepts, in the order of `ids`. */
  function FilterIds(ids: seq<nat>, keep: nat -> bool): (r: seq<nat>)
    ensures forall k :: k in r <==> k in ids && keep(k)
    ensures Increasing(ids) ==> Increasing(r)
    ensures |r| <= |ids|
    decreases |ids|
  {
    if ids == [] then []
    else
      var init, last := ids[..|ids| - 1], ids[|ids| - 1];
      assert ids == init + [last];
      var front := FilterIds(init, keep);
      assert Increasing(ids) ==> forall i :: 0 <= i < |front| ==> front[i] < last by {
        if Increasing(ids) {
          forall i | 0 <= i < |front| ensures front[i] < last {
            assert front[i] in init;
          }
        }
      }
      front + (if keep(last) then [last] else [])
  }

  /** `limit(n)`: the first `n` ids, or all of them when there are fewer. */
  function Limit(s: seq<nat>, n: nat): (r: seq<nat>)
    ensures |r| == if |s| <= n then |s| else n
    ensures forall i :: 0 <= i < |r| ==> r[i] == s[i]
  {
    if |s| <= n then s else s[..n]
  }

  /** Limiting an increasing sequence keeps exactly its smallest elements:
      everything up to the last id taken. */
  lemma {:induction false} LimitSpec(s: seq<nat>, n: nat)
    requires Increasing(s)
    ensures Increasing(Limit(s, n))
    ensures forall u :: u in Limit(s, n) ==> u in s
    ensures forall u :: u in s && (|s| <= n || (n > 0 && u <= s[n - 1])) ==> u in Limit(s, n)
  {
    var r := Limit(s, n);
    forall u | u in s && (|s| <= n || (n > 0 && u <= s[n - 1])) ensures u in r {
      var j :| 0 <= j < |s| && s[j] == u;
      if |s| > n {
        assert s[n - 1] < s[j] || j <= n - 1;
        assert r[j] == u;
      }
    }
  }

  /** Dropping the common least element keeps two increasing sequences
      element-equal. */
  lemma TailsAgree(a: seq<nat>, b: seq<nat>, x: nat)
    requires Increasing(a) && Increasing(b) && |a| > 0 && |b| > 0 && a[0] == b[0]
    requires forall y :: y in a <==> y in b
    requires x in a[1..]
    ensures x in b[1..]
  {
    var m :| 0 <= m < |a[1..]| && a[1..][m] == x;
    assert a[m + 1] == x && a[0] < x;
    assert x in b;
    var n :| 0 <= n < |b| && b[n] == x;
    assert b[1..][n - 1] == x;
  }

  /** An increasing sequence is determined by its elements. */
  lemma {:induction false} IncreasingUnique(a: seq<nat>, b: seq<nat>)
    requires Increasing(a) && Increasing(b)
    requires forall x :: x in a <==> x in b
    ensures a == b
    decreases |a|
  {
    if a == [] {
      assert forall i :: 0 <= i < |b| ==> b[i] in a;
    } else {
      assert a[0] in b;
      var i :| 0 <= i < |b| && b[i] == a[0];
      assert b[0] in b && b[0] in a;
      var j :| 0 <= j < |a| && a[j] == b[0];
      assert a[0] <= a[j] && b[0] <= b[i];
      assert a[0] == b[0];
      forall x ensures x in a[1..] <==> x in b[1..] {
        if x in a[1..] {
          TailsAgree(a, b, x);
        }
        if x in b[1..] {
          TailsAgree(b, a, x);
        }
      }
      IncreasingUnique(a[1..], b[1..]);
      assert a == [a[0]] + a[1..] && b == [b[0]] + b[1..];
    }
  }

  datatype Table<T> = Table(rows: map<nat, T>, next: nat) {

    /** Every row id was handed out by the sequence. */
    ghost predicate Valid()
    {
      forall k :: k in rows ==> k < next
    }

    /** All row ids in table order. */
    function Ids(): (r: seq<nat>)
      requires Valid()
      ensures forall k :: k in r <==> k in rows
      ensures Increasing(r)
    {
      IdsBelowSpec(rows, next);
      IdsBelow(rows, next)
    }

    /** `where(p)->get()`: the ids of the rows satisfying `p`, in table order. */
    function Where(p: T -> bool): (r: seq<nat>)
      requires Valid()
      ensures forall k :: k in r <==> k in rows && p(rows[k])
      ensures Increasing(r)
    {
      SelectSpec(rows, Ids(), p);
      Select(rows, Ids(), p)
    }

    /** `where(p)->first()`: the least id whose row satisfies `p`. */
    function First(p: T -> bool): (r: Option<nat>)
      requires Valid()
      ensures r.None? <==> forall k :: k in rows ==> !p(rows[k])
      ensures r.Some? ==> r.value in rows && p(rows[r.value])
      ensures r.Some? ==> forall k :: k in rows && k < r.value ==> !p(rows[k])
    {
      var s := Where(p);
      if s == [] then None
      else
        assert s[0] in s;
        assert forall k :: k in rows && p(rows[k]) ==> k == s[0] || s[0] < k by {
          forall k | k in rows && p(rows[k]) ensures k == s[0] || s[0] < k {
            var i :| 0 <= i < |s| && s[i] == k;
          }
        }
        Some(s[0])
    }

    /** `where(p)->exists()`. */
    predicate Any(p: T -> bool)
      requires Valid()
    {
      First(p).Some?
    }

    /** The ids of the rows satisfying `p`, as a set. */
    ghost function Matching(p: T -> bool): set<nat>
    {
      set k | k in rows && p(rows[k])
    }

    /** `where(p)->count()`: the number of rows satisfying `p`. */
    function Count(p: T -> bool): (n: nat)
      requires Valid()
      ensures n == |Matching(p)|
    {
      var s := Where(p);
      IncreasingCard(s);
      assert Elems(s) == Matching(p);
      |s|
    }

    /** `save()` of a new row: it takes the next id. */
    function Insert(r: T): (t: Table<T>)
      ensures Valid() ==> t.Valid() && next !in rows
    {
      Table(rows[next := r], next + 1)
    }

    /** `save()` of an existing row. */
    function Put(k: nat, r: T): (t: Table<T>)
      requires k in rows
      ensures Valid() ==> t.Valid()
    {
      Table(rows[k := r], next)
    }

    /** `delete()` of one row. */
    function Delete(k: nat): (t: Table<T>)
      ensures Valid() ==> t.Valid()
      ensures NoDup(this) ==> NoDup(t)
    {
      Table(rows - {k}, next)
    }

    /** `where(p)->delete()`: exactly the rows satisfying `p` go, the others keep their ids. */
    function DeleteWhere(p: T -> bool): (t: Table<T>)
      ensures Valid() ==> t.Valid()
      ensures forall k :: k in t.rows <==> k in rows && !p(rows[k])
      ensures forall k :: k in t.rows ==> t.rows[k] == rows[k]
      ensures t.next == next
    {
      Table(map k | k in rows && !p(rows[k]) :: rows[k], next)
    }

    /** The set of row values, forgetting ids. */
    ghost function Values(): set<T>
    {
      set k | k in rows :: rows[k]
    }
  }

  /** Two tables whose rows satisfy `p` and `q` at the same ids give the
      same `where` listing. */
  lemma WhereSame<T>(t: Table<T>, u: Table<T>, p: T -> bool, q: T -> bool)
    requires t.Valid() && u.Valid()
    requires forall k :: k in t.rows && p(t.rows[k]) <==> k in u.rows && q(u.rows[k])
    ensures t.Where(p) == u.Where(q)
  {
    IncreasingUnique(t.Where(p), u.Where(q));
  }

  /** The predicate matching one row value exactly. */
  function Is<T(==)>(r: T): T -> bool
  {
    (x: T) => x == r
  }

  /** No two rows hold the same value: the table's pair-uniqueness invariant. */
  ghost predicate NoDup<T>(t: Table<T>)
  {
    forall i, j :: i in t.rows && j in t.rows && t.rows[i] == t.rows[j] ==> i == j
  }

  /** Inserting a value the table does not hold keeps it duplicate-free and adds exactly that value. */
  lemma InsertFresh<T>(t: Table<T>, r: T)
    requires t.Valid() && NoDup(t) && r !in t.Values()
    ensures NoDup(t.Insert(r))
    ensures t.Insert(r).Values() == t.Values() + {r}
  {
    var u := t.Insert(r);
    assert u.rows[t.next] == r;
    forall i | i in u.rows && i != t.next ensures u.rows[i] != r {
      assert u.rows[i] == t.rows[i] && t.rows[i] in t.Values();
    }
    forall x | x in t.Values() ensures x in u.Values() {
      var j :| j in t.rows && t.rows[j] == x;
      assert u.rows[j] == x;
    }
  }

  /** `where(...)->first()` on every column of the row. */
  function Find<T(==)>(t: Table<T>, r: T): (k: Option<nat>)
    requires t.Valid()
    ensures k.None? <==> r !in t.Values()
    ensures k.Some? ==> k.value in t.rows && t.rows[k.value] == r
  {
    var k := t.First(Is(r));
    assert r in t.Values() ==> k.Some? by {
      if r in t.Values() {
        var j :| j in t.rows && t.rows[j] == r;
        assert Is(r)(t.rows[j]);
      }
    }
    k
  }

  /** Delete the row holding `r` if there is one, otherwise insert `r`. */
  function Flip<T(==)>(t: Table<T>, r: T): (f: Table<T>)
    requires t.Valid()
    ensures f.Valid()
  {
    match Find(t, r)
    case Some(k) => t.Delete(k)
    case None => t.Insert(r)
  }

  /** Flipping keeps the table valid and duplicate-free, and toggles exactly `r`. */
  lemma {:induction false} FlipSpec<T>(t: Table<T>, r: T)
    requires t.Valid() && NoDup(t)
    ensures Flip(t, r).Valid() && NoDup(Flip(t, r))
    ensures Flip(t, r).Values() == if r in t.Values() then t.Values() - {r} else t.Values() + {r}
  {
    var f := Flip(t, r);
    match Find(t, r)
    case Some(k) =>
      assert f.rows == t.rows - {k};
      forall x | x in t.Values() - {r} ensures x in f.Values() {
        var j :| j in t.rows && t.rows[j] == x;
        assert j != k;
        assert f.rows[j] == x;
      }
      forall x | x in f.Values() ensures x in t.Values() - {r} {
        var j :| j in f.rows && f.rows[j] == x;
        assert j != k && j in t.rows;
      }
    case None =>
      assert f.rows == t.rows[t.next := r];
      forall x | x in t.Values() + {r} ensures x in f.Values() {
        if x == r {
          assert f.rows[t.next] == r;
        } else {
          var j :| j in t.rows && t.rows[j] == x;
          assert j != t.next && f.rows[j] == x;
        }
      }
      forall i | i in f.rows && i != t.next ensures f.rows[i] != r {
        assert f.rows[i] == t.rows[i] && t.rows[i] in t.Values();
      }
  }

  /** Flipping the same value twice gives back the same rows, up to the ids
      the second insertion may take. */
  lemma FlipTwice<T>(t: Table<T>, r: T)
    requires t.Valid() && NoDup(t)
    ensures Flip(Flip(t, r), r).Values() == t.Values()
  {
    FlipSpec(t, r);
    FlipSpec(Flip(t, r), r);
  }

  /** A value inserted into a table that did not hold it is found at the new id. */
  lemma {:induction false} FindInserted<T>(t: Table<T>, r: T)
    requires t.Valid() && r !in t.Values()
    ensures Find(t.Insert(r), r) == Some(t.next)
  {
    var u := t.Insert(r);
    assert u.rows[t.next] == r;
    assert r in u.Values();
    forall j | j in u.rows && j != t.next ensures u.rows[j] != r {
      assert u.rows[j] == t.rows[j] && t.rows[j] in t.Values();
    }
  }

  /** When `r` is absent, flipping it twice restores the rows exactly. */
  lemma {:induction false} FlipTwiceAbsent<T>(t: Table<T>, r: T)
    requires t.Valid() && r !in t.Values()
    ensures Flip(Flip(t, r), r).rows == t.rows
  {
    var u := t.Insert(r);
    assert Flip(t, r) == u;
    FindInserted(t, r);
    assert Flip(u, r) == u.Delete(t.next);
  }
}
