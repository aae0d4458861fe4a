/** The patients table as the entity manager presents it: rows keyed by id,
    the constraints a flush checks, the flush of a changed managed entity
    (which runs the pre-update hook first), and the two ordered queries. */
module Persistence {
  import opened Wrappers
  import opened Text
  import opened Calendar
  import opened PatientEntity

  type Store = map<int, Patient>

  /** The unique columns: no other row has the same insurance number, and no
      other row has the same EPA id (any number of rows may have none). */
  predicate UniqueAgainst(others: Store, row: Patient) {
    forall k :: k in others ==>
      others[k].insuranceNumber != row.insuranceNumber
      && (row.epaId.Some? ==> others[k].epaId != row.epaId)
  }

  /** What a flush of row checks: the column definitions and the unique
      columns against every other row. */
  predicate RowFits(others: Store, row: Patient) {
    ColumnsValid(row) && UniqueAgainst(others, row)
  }

  /** The table as the database keeps it: each row is filed under its own id
      and satisfies every constraint against the rest. */
  predicate Valid(s: Store) {
    forall k :: k in s ==> s[k].id == Some(k) && RowFits(s - {k}, s[k])
  }

  /** Flushing a managed entity whose state went from before to after. An
      unchanged entity is not written and the pre-update hook does not run; a
      changed one gets updatedAt stamped and is written if it still fits the
      table, and otherwise the flush fails and the transaction rolls back. */
  function Flush(s: Store, id: int, before: Patient, after: Patient, now: LocalDateTime): (r: Option<Store>)
    requires id in s && s[id] == before
    ensures after == before ==> r == Some(s)
    ensures after != before ==>
      (r.Some? <==> RowFits(s - {id}, OnUpdate(after, now)))
    ensures r.Some? ==> r.value.Keys == s.Keys
    ensures r.Some? ==> forall k :: k in s && k != id ==> r.value[k] == s[k]
    ensures r.Some? && after != before ==> r.value[id] == OnUpdate(after, now)
  {
    if after == before then Some(s)
    else
      var row := OnUpdate(after, now);
      if RowFits(s - {id}, row) then Some(s[id := row]) else None
  }

  /** A flush that succeeds keeps the table valid, provided the entity keeps
      its id. */
  lemma FlushKeepsValid(s: Store, id: int, after: Patient, now: LocalDateTime)
    requires Valid(s) && id in s && after.id == Some(id)
    requires Flush(s, id, s[id], after, now).Some?
    ensures Valid(Flush(s, id, s[id], after, now).value)
  {
    var t := Flush(s, id, s[id], after, now).value;
    if after != s[id] {
      forall k | k in t
        ensures t[k].id == Some(k) && RowFits(t - {k}, t[k])
      {
        if k != id {
          assert t - {k} == (s - {k})[id := t[id]];
          assert RowFits(s - {k}, s[k]);
          assert RowFits(s - {id}, t[id]);
          forall j | j in t - {k}
            ensures t[j].insuranceNumber != t[k].insuranceNumber
            ensures t[k].epaId.Some? ==> t[j].epaId != t[k].epaId
          {
            if j == id {
              assert k in s - {id};
            }
          }
        } else {
          assert t - {k} == s - {id};
        }
      }
    }
  }

  /** The order of the named queries: by last name. Rows of the table always
      have a last name; the empty string stands in for a missing one. */
  predicate ByLastName(a: Patient, b: Patient) {
    TextLessEq(a.lastName.GetOr(""), b.lastName.GetOr(""))
  }

  predicate Sorted(ps: seq<Patient>) {
    forall i, j :: 0 <= i < j < |ps| ==> ByLastName(ps[i], ps[j])
  }

  /** Inserts p into a sorted list after every row that sorts no later than it. */
  function Insert(ps: seq<Patient>, p: Patient): (r: seq<Patient>)
    requires Sorted(ps)
    ensures Sorted(r)
    ensures multiset(r) == multiset(ps) + multiset{p}
    decreases |ps|
  {
    if |ps| == 0 then [p]
    else if ByLastName(p, ps[0]) then
      InsertFront(ps, p);
      [p] + ps
    else
      var rest := Insert(ps[1..], p);
      TextLessEqTotal(p.lastName.GetOr(""), ps[0].lastName.GetOr(""));
      InsertBehind(ps, p, rest);
      assert ps == [ps[0]] + ps[1..];
      [ps[0]] + rest
  }

  lemma InsertFront(ps: seq<Patient>, p: Patient)
    requires Sorted(ps) && |ps| > 0 && ByLastName(p, ps[0])
    ensures Sorted([p] + ps)
  {
    var r := [p] + ps;
    forall i, j | 0 <= i < j < |r|
      ensures ByLastName(r[i], r[j])
    {
      if i == 0 && j > 1 {
        TextLessEqTransitive(p.lastName.GetOr(""), ps[0].lastName.GetOr(""), ps[j - 1].lastName.GetOr(""));
      }
    }
  }

  lemma InsertBehind(ps: seq<Patient>, p: Patient, rest: seq<Patient>)
    requires Sorted(ps) && |ps| > 0 && ByLastName(ps[0], p)
    requires Sorted(rest) && multiset(rest) == multiset(ps[1..]) + multiset{p}
    ensures Sorted([ps[0]] + rest)
  {
    var r := [ps[0]] + rest;
    forall j | 0 < j < |r|
      ensures ByLastName(ps[0], r[j])
    {
      assert r[j] in multiset(rest);
      if r[j] != p {
        assert r[j] in multiset(ps[1..]);
        var m :| 0 <= m < |ps[1..]| && ps[1..][m] == r[j];
        assert ps[m + 1] == r[j];
      }
    }
  }

  /** The keys of the rows that pass the filter. */
  function Matching(s: Store, keep: Patient -> bool): (ks: set<int>)
    ensures forall k :: k in ks <==> k in s && keep(s[k])
  {
    set k | k in s && keep(s[k])
  }

  lemma SomeMember(ks: set<int>)
    requires ks != {}
    ensures exists k :: k in ks
  {
    assert (forall k :: k !in ks) ==> ks == {};
  }

  /** The rows filed under the keys ks, one per key, as a bag. */
  ghost function Rows(s: Store, ks: set<int>): (b: multiset<Patient>)
    requires ks <= s.Keys
    ensures |b| == |ks|
  {
    if ks == {} then multiset{}
    else
      SomeMember(ks);
      var k :| k in ks;
      multiset{s[k]} + Rows(s, ks - {k})
  }

  /** Rows does not depend on which key it takes first. */
  lemma {:induction false} RowsRemove(s: Store, ks: set<int>, k: int)
    requires ks <= s.Keys && k in ks
    ensures Rows(s, ks) == multiset{s[k]} + Rows(s, ks - {k})
    decreases ks
  {
    var j :| j in ks && Rows(s, ks) == multiset{s[j]} + Rows(s, ks - {j});
    if j != k {
      RowsRemove(s, ks - {j}, k);
      RowsRemove(s, ks - {k}, j);
      assert ks - {j} - {k} == ks - {k} - {j};
    }
  }

  /** The keys among ks whose rows pass c. */
  function Filtered(s: Store, ks: set<int>, c: Patient -> bool): (sub: set<int>)
    requires ks <= s.Keys
    ensures sub <= ks
    ensures forall k :: k in sub <==> k in ks && c(s[k])
  {
    set k | k in ks && c(s[k])
  }

  /** Keeping the rows that pass c is the same as keeping the keys whose rows pass c. */
  lemma {:induction false} RowsFilter(s: Store, ks: set<int>, c: Patient -> bool, p: Patient)
    requires ks <= s.Keys
    ensures Rows(s, Filtered(s, ks, c))[p] == if c(p) then Rows(s, ks)[p] else 0
    decreases ks
  {
    if ks == {} {
      assert Filtered(s, ks, c) == {};
    } else {
      SomeMember(ks);
      var k :| k in ks;
      RowsFilter(s, ks - {k}, c, p);
      RowsRemove(s, ks, k);
      FilteredStep(s, ks, c, k);
    }
  }

  lemma FilteredStep(s: Store, ks: set<int>, c: Patient -> bool, k: int)
    requires ks <= s.Keys && k in ks
    ensures Rows(s, Filtered(s, ks, c))
            == (if c(s[k]) then multiset{s[k]} else multiset{}) + Rows(s, Filtered(s, ks - {k}, c))
  {
    var sub := Filtered(s, ks, c);
    assert sub - {k} == Filtered(s, ks - {k}, c);
    if c(s[k]) {
      RowsRemove(s, sub, k);
    } else {
      assert sub == sub - {k};
    }
  }

  /** One more key's row added to a query's result keeps it the bag of the
      rows under the keys seen so far. */
  lemma AddRow(s: Store, done: set<int>, k: int, before: seq<Patient>, after: seq<Patient>)
    requires done + {k} <= s.Keys && k !in done
    requires multiset(before) == Rows(s, done)
    requires forall p :: p in before <==> exists j :: j in done && s[j] == p
    requires multiset(after) == multiset(before) + multiset{s[k]}
    ensures multiset(after) == Rows(s, done + {k})
    ensures |after| == |before| + 1
    ensures forall p :: p in after <==> exists j :: j in done + {k} && s[j] == p
  {
    RowsRemove(s, done + {k}, k);
    assert done + {k} - {k} == done;
    assert |multiset(after)| == |multiset(before)| + 1;
    forall p
      ensures p in after <==> exists j :: j in done + {k} && s[j] == p
    {
      assert p in after <==> p in multiset(after);
      assert p in before <==> p in multiset(before);
      if p == s[k] {
        assert k in done + {k};
      }
    }
  }

  lemma AppendRow(s: Store, done: set<int>, k: int, before: seq<Patient>)
    requires done + {k} <= s.Keys && k !in done
    requires multiset(before) == Rows(s, done)
    requires forall p :: p in before <==> exists j :: j in done && s[j] == p
    ensures multiset(before + [s[k]]) == Rows(s, done + {k})
    ensures |before + [s[k]]| == |before| + 1
    ensures forall p :: p in before + [s[k]] <==> exists j :: j in done + {k} && s[j] == p
  {
    assert multiset(before + [s[k]]) == multiset(before) + multiset{s[k]};
    AddRow(s, done, k, before, before + [s[k]]);
  }

  /** A query over the table ordered by last name: every row passing keep,
      once per key, sorted. Rows with equal last names come in no promised
      order. */
  method OrderedQuery(s: Store, keep: Patient -> bool) returns (r: seq<Patient>)
    ensures Sorted(r)
    ensures |r| == |Matching(s, keep)|
    ensures forall p :: p in r <==> exists k :: k in s && s[k] == p && keep(p)
    ensures multiset(r) == Rows(s, Matching(s, keep))
  {
    r := [];
    var todo := Matching(s, keep);
    ghost var done: set<int> := {};
    while todo != {}
      invariant todo !! done && todo + done == Matching(s, keep)
      invariant Sorted(r) && |r| == |done|
      invariant forall p :: p in r <==> exists k :: k in done && s[k] == p
      invariant multiset(r) == Rows(s, done)
      decreases |todo|
    {
      SomeMember(todo);
      var k :| k in todo;
      var before := r;
      r := Insert(r, s[k]);
      AddRow(s, done, k, before, r);
      todo := todo - {k};
      done := done + {k};
    }
  }

  /** A query with no ORDER BY: every row passing keep, once per key, in no
      promised order. */
  method UnorderedQuery(s: Store, keep: Patient -> bool) returns (r: seq<Patient>)
    ensures |r| == |Matching(s, keep)|
    ensures forall p :: p in r <==> exists k :: k in s && s[k] == p && keep(p)
    ensures multiset(r) == Rows(s, Matching(s, keep))
  {
    r := [];
    var todo := Matching(s, keep);
    ghost var done: set<int> := {};
    while todo != {}
      invariant todo !! done && todo + done == Matching(s, keep)
      invariant forall p :: p in r <==> exists k :: k in done && s[k] == p
      invariant multiset(r) == Rows(s, done)
      decreases |todo|
    {
      SomeMember(todo);
      var k :| k in todo;
      AppendRow(s, done, k, r);
      r := r + [s[k]];
      todo := todo - {k};
      done := done + {k};
    }
    assert |r| == |multiset(r)|;
  }
}
