/**
 * The order families are written in by AzureProducts/Program.cs: a map's
 * families, listed in the order the map yields them, then ordered by Name
 * with a stable sort. The comparer is the platform's culture-aware string
 * comparer, which is taken here as any total preorder `le` on names.
 */
module Ordering {
  import opened Catalog

  /** `le` compares every two names and is transitive. */
  ghost predicate TotalPreorder(le: (string, string) -> bool)
  {
    && (forall a, b :: le(a, b) || le(b, a))
    && (forall a, b, c :: le(a, b) && le(b, c) ==> le(a, c))
  }

  /** `le` never puts two different names on the same footing. */
  ghost predicate Antisymmetric(le: (string, string) -> bool)
  {
    forall a, b :: le(a, b) && le(b, a) ==> a == b
  }

  /** Every family comes no later under `le` than every family after it. */
  ghost predicate SortedByName(fams: seq<ServiceFamilyRecord>, le: (string, string) -> bool)
  {
    forall i, j :: 0 <= i < j < |fams| ==> le(fams[i].Name, fams[j].Name)
  }

  /** No two families in the list share a name. */
  ghost predicate DistinctNames(fams: seq<ServiceFamilyRecord>)
  {
    forall i, j :: 0 <= i < j < |fams| ==> fams[i].Name != fams[j].Name
  }

  /**
   * Puts `f` into a sorted list, before the first family it does not come
   * after, so that it stays ahead of families whose names compare equal.
   */
  function InsertByName(f: ServiceFamilyRecord, sorted: seq<ServiceFamilyRecord>, le: (string, string) -> bool)
    : (r: seq<ServiceFamilyRecord>)
    requires TotalPreorder(le) && SortedByName(sorted, le)
    ensures SortedByName(r, le)
    ensures multiset(r) == multiset(sorted) + multiset{f}
  {
    if sorted == [] || le(f.Name, sorted[0].Name) then
      [f] + sorted
    else
      SortedTail(sorted, le);
      var rest := InsertByName(f, sorted[1..], le);
      assert le(sorted[0].Name, f.Name);
      InsertAfterHead(f, sorted, rest, le);
      [sorted[0]] + rest
  }

  /** A family that comes no later than every family of a sorted list can go in front of it. */
  lemma SortedCons(h: ServiceFamilyRecord, rest: seq<ServiceFamilyRecord>, le: (string, string) -> bool)
    requires SortedByName(rest, le)
    requires forall i :: 0 <= i < |rest| ==> le(h.Name, rest[i].Name)
    ensures SortedByName([h] + rest, le)
  {
    var r := [h] + rest;
    forall i, j | 0 <= i < j < |r| ensures le(r[i].Name, r[j].Name) {
      assert r[j] == rest[j - 1];
      if i > 0 {
        assert r[i] == rest[i - 1];
      }
    }
  }

  /** A family that does not go before the head of a sorted list goes after it. */
  lemma InsertAfterHead(f: ServiceFamilyRecord, sorted: seq<ServiceFamilyRecord>, rest: seq<ServiceFamilyRecord>,
                        le: (string, string) -> bool)
    requires SortedByName(sorted, le) && sorted != [] && le(sorted[0].Name, f.Name)
    requires SortedByName(rest, le) && multiset(rest) == multiset(sorted[1..]) + multiset{f}
    ensures SortedByName([sorted[0]] + rest, le)
    ensures multiset([sorted[0]] + rest) == multiset(sorted) + multiset{f}
  {
    assert sorted == [sorted[0]] + sorted[1..];
    forall i | 0 <= i < |rest| ensures le(sorted[0].Name, rest[i].Name) {
      assert rest[i] in multiset(rest);
      if rest[i] != f {
        assert rest[i] in multiset(sorted[1..]);
        var k :| 0 <= k < |sorted| - 1 && sorted[1..][k] == rest[i];
        assert sorted[k + 1] == rest[i];
      }
    }
    SortedCons(sorted[0], rest, le);
  }

  /**
   * `OrderBy(sf => sf.Name)`: a stable sort of the families by name. The
   * result is sorted and holds exactly the families it was given.
   */
  function OrderByName(fams: seq<ServiceFamilyRecord>, le: (string, string) -> bool): (r: seq<ServiceFamilyRecord>)
    requires TotalPreorder(le)
    ensures SortedByName(r, le)
    ensures multiset(r) == multiset(fams)
  {
    if fams == [] then []
    else
      assert fams == [fams[0]] + fams[1..];
      InsertByName(fams[0], OrderByName(fams[1..], le), le)
  }

  /** A family of a list with distinct names occurs in it at most once. */
  lemma {:induction false} OccursOnce(a: seq<ServiceFamilyRecord>, x: ServiceFamilyRecord)
    requires DistinctNames(a)
    ensures multiset(a)[x] <= 1
  {
    if a != [] {
      assert a == [a[0]] + a[1..];
      OccursOnce(a[1..], x);
      if x == a[0] {
        assert x !in a[1..] by {
          forall m | 1 <= m < |a| ensures a[m] != x {
            assert a[0].Name != a[m].Name;
          }
        }
      }
    }
  }

  /** Families drawn from a list with distinct names still have distinct names. */
  lemma DistinctNamesPermutation(a: seq<ServiceFamilyRecord>, b: seq<ServiceFamilyRecord>)
    requires multiset(a) == multiset(b) && DistinctNames(a)
    ensures DistinctNames(b)
  {
    forall i, j | 0 <= i < j < |b| ensures b[i].Name != b[j].Name {
      assert b[i] in multiset(a) && b[j] in multiset(a);
      var p :| 0 <= p < |a| && a[p] == b[i];
      var q :| 0 <= q < |a| && a[q] == b[j];
      assert b[i] != b[j] by {
        OccursOnce(a, b[i]);
        assert b == b[..i] + [b[i]] + b[i + 1..j] + [b[j]] + b[j + 1..];
      }
      assert p != q;
      assert a[p].Name != a[q].Name by {
        if p < q { assert a[p].Name != a[q].Name; } else { assert a[q].Name != a[p].Name; }
      }
    }
  }

  /** Two sorted arrangements of the same families with distinct names start alike. */
  lemma SortedHeads(a: seq<ServiceFamilyRecord>, b: seq<ServiceFamilyRecord>, le: (string, string) -> bool)
    requires Antisymmetric(le)
    requires SortedByName(a, le) && SortedByName(b, le)
    requires multiset(a) == multiset(b) && DistinctNames(a) && a != []
    ensures b != [] && a[0] == b[0]
  {
    assert |b| == |a| by { assert |multiset(b)| == |multiset(a)|; }
    assert a[0] in multiset(b) && b[0] in multiset(a);
    SortedFirst(a, le);
    SortedFirst(b, le);
    var i :| 0 <= i < |a| && a[i] == b[0];
  }

  /** The first family of a sorted list comes no later than any other family of it. */
  lemma SortedFirst(a: seq<ServiceFamilyRecord>, le: (string, string) -> bool)
    requires SortedByName(a, le) && a != []
    ensures forall x :: x in a && x != a[0] ==> le(a[0].Name, x.Name)
  {
    forall x | x in a && x != a[0] ensures le(a[0].Name, x.Name) {
      var k :| 0 <= k < |a| && a[k] == x;
      assert k != 0;
    }
  }

  /** Dropping the first family keeps a list sorted. */
  lemma SortedTail(a: seq<ServiceFamilyRecord>, le: (string, string) -> bool)
    requires SortedByName(a, le) && a != []
    ensures SortedByName(a[1..], le)
  {
    forall i, j | 0 <= i < j < |a| - 1 ensures le(a[1..][i].Name, a[1..][j].Name) {
      assert a[1..][i] == a[i + 1] && a[1..][j] == a[j + 1];
    }
  }

  /** Dropping the first family takes one occurrence of it out. */
  lemma TailMultiset(a: seq<ServiceFamilyRecord>)
    requires a != []
    ensures multiset(a[1..]) == multiset(a) - multiset{a[0]}
  {
    assert a == [a[0]] + a[1..];
  }

  /** Dropping the first family keeps the names distinct. */
  lemma DistinctTail(a: seq<ServiceFamilyRecord>)
    requires DistinctNames(a) && a != []
    ensures DistinctNames(a[1..])
  {
    forall i, j | 0 <= i < j < |a| - 1 ensures a[1..][i].Name != a[1..][j].Name {
      assert a[1..][i] == a[i + 1] && a[1..][j] == a[j + 1];
    }
  }

  /**
   * Under a comparer that never ties two different names, families with
   * distinct names have exactly one sorted arrangement.
   */
  lemma {:induction false} SortedUnique(a: seq<ServiceFamilyRecord>, b: seq<ServiceFamilyRecord>, le: (string, string) -> bool)
    requires Antisymmetric(le)
    requires SortedByName(a, le) && SortedByName(b, le)
    requires multiset(a) == multiset(b) && DistinctNames(a)
    ensures a == b
    decreases |a|
  {
    if a == [] {
      assert |b| == 0 by { assert |multiset(b)| == |multiset(a)|; }
    } else {
      SortedHeads(a, b, le);
      SortedTail(a, le);
      SortedTail(b, le);
      DistinctTail(a);
      TailMultiset(a);
      TailMultiset(b);
      SortedUnique(a[1..], b[1..], le);
      assert a == [a[0]] + a[1..] && b == [b[0]] + b[1..];
    }
  }

  /**
   * Under a comparer that never ties two different names, ordering families
   * with distinct names gives the one sorted arrangement of them, whatever
   * order they were listed in.
   */
  lemma OrderByNameCanonical(a: seq<ServiceFamilyRecord>, b: seq<ServiceFamilyRecord>, le: (string, string) -> bool)
    requires TotalPreorder(le) && Antisymmetric(le)
    requires multiset(a) == multiset(b) && DistinctNames(a)
    ensures OrderByName(a, le) == OrderByName(b, le)
  {
    DistinctNamesPermutation(a, OrderByName(a, le));
    SortedUnique(OrderByName(a, le), OrderByName(b, le), le);
  }
}
