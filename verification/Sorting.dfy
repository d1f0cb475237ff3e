/** Entries in ascending order of identifier, as the source's stable library sort leaves them. */
module Sorting {
  import opened Bytes

  datatype Entry<T> = Entry(id: Bytes, data: T)

  function InsertById<T>(e: Entry<T>, s: seq<Entry<T>>): (r: seq<Entry<T>>)
    ensures multiset(r) == multiset{e} + multiset(s)
  {
    if s == [] then [e]
    else if Before(e.id, s[0].id) then [e] + s
    else
      assert s == [s[0]] + s[1..];
      [s[0]] + InsertById(e, s[1..])
  }

  /** A later entry goes after the earlier ones of the same identifier, which is what stable means. */
  function SortById<T>(s: seq<Entry<T>>): (r: seq<Entry<T>>)
    ensures multiset(r) == multiset(s)
  {
    if s == [] then []
    else
      assert s == s[..|s| - 1] + [s[|s| - 1]];
      InsertById(s[|s| - 1], SortById(s[..|s| - 1]))
  }

  predicate Ascending<T>(s: seq<Entry<T>>) {
    forall i, j :: 0 <= i < j < |s| ==> !Before(s[j].id, s[i].id)
  }

  predicate StrictlyAscending<T>(s: seq<Entry<T>>) {
    forall i, j :: 0 <= i < j < |s| ==> Before(s[i].id, s[j].id)
  }

  predicate DistinctIds<T>(s: seq<Entry<T>>) {
    forall i, j :: 0 <= i < j < |s| ==> s[i].id != s[j].id
  }

  lemma {:induction false} InsertAscending<T>(e: Entry<T>, s: seq<Entry<T>>)
    requires Ascending(s)
    ensures Ascending(InsertById(e, s))
  {
    hide Before;
    if s != [] {
      if Before(e.id, s[0].id) {
        forall j | 0 <= j < |s| ensures !Before(s[j].id, e.id) {
          BeforeIsTotalOrder(s[j].id, e.id, s[0].id);
        }
      } else {
        InsertAscending(e, s[1..]);
        var rest := InsertById(e, s[1..]);
        forall j | 0 <= j < |rest| ensures !Before(rest[j].id, s[0].id) {
          assert rest[j] in multiset(rest);
          if rest[j] != e {
            assert rest[j] in s[1..];
            var k :| 1 <= k < |s| && s[k] == rest[j];
          }
        }
      }
    }
  }

  lemma {:induction false} SortAscending<T>(s: seq<Entry<T>>)
    ensures Ascending(SortById(s))
  {
    if s != [] {
      SortAscending(s[..|s| - 1]);
      InsertAscending(s[|s| - 1], SortById(s[..|s| - 1]));
    }
  }

  /** Whether any two entries of an ascending list share an identifier shows between neighbours. */
  lemma {:induction false} NeighboursDecide<T>(s: seq<Entry<T>>)
    requires Ascending(s)
    ensures (forall i :: 1 <= i < |s| ==> s[i - 1].id != s[i].id) ==> StrictlyAscending(s)
  {
    if forall i :: 1 <= i < |s| ==> s[i - 1].id != s[i].id {
      forall i, j | 0 <= i < j < |s| ensures Before(s[i].id, s[j].id) {
        BeforeIsTotalOrder(s[j - 1].id, s[j].id, s[j].id);
        assert !Before(s[j].id, s[j - 1].id);
        if i < j - 1 {
          NeighboursDecide(s[..j]);
          assert Before(s[..j][i].id, s[..j][j - 1].id);
          BeforeIsTotalOrder(s[i].id, s[j - 1].id, s[j].id);
        }
      }
    }
  }

  /** The first of a strictly ascending list comes before or is any member. */
  lemma FirstIsLeast<T>(s: seq<Entry<T>>, e: Entry<T>)
    requires StrictlyAscending(s) && e in s
    ensures s != [] && (e == s[0] || Before(s[0].id, e.id))
  {
    hide Before;
    var i :| 0 <= i < |s| && s[i] == e;
  }

  lemma SameFirst<T>(s: seq<Entry<T>>, t: seq<Entry<T>>)
    requires StrictlyAscending(s) && StrictlyAscending(t) && multiset(s) == multiset(t) && s != []
    ensures t != [] && s[0] == t[0]
  {
    hide Before, StrictlyAscending;
    assert s[0] in multiset(t);
    FirstIsLeast(t, s[0]);
    assert t[0] in multiset(s);
    FirstIsLeast(s, t[0]);
    BeforeIsTotalOrder(s[0].id, t[0].id, t[0].id);
  }

  lemma SameRest<T>(s: seq<Entry<T>>, t: seq<Entry<T>>)
    requires s != [] && t != [] && s[0] == t[0] && multiset(s) == multiset(t)
    ensures multiset(s[1..]) == multiset(t[1..])
  {
    assert s == [s[0]] + s[1..] && t == [t[0]] + t[1..];
    assert multiset(s[1..]) == multiset(s) - multiset{s[0]};
    assert multiset(t[1..]) == multiset(t) - multiset{t[0]};
  }

  /** One multiset of entries has at most one strictly ascending arrangement. */
  lemma {:induction false} StrictOrderIsUnique<T>(s: seq<Entry<T>>, t: seq<Entry<T>>)
    requires StrictlyAscending(s) && StrictlyAscending(t) && multiset(s) == multiset(t)
    ensures s == t
  {
    hide Before;
    if s == [] {
      assert |multiset(t)| == 0;
    } else {
      SameFirst(s, t);
      SameRest(s, t);
      StrictOrderIsUnique(s[1..], t[1..]);
      assert s == [s[0]] + s[1..] && t == [t[0]] + t[1..];
    }
  }

  /** Distinctness of identifiers is a property of the multiset, so sorting neither makes nor loses it. */
  lemma {:induction false} DistinctIgnoresOrder<T>(s: seq<Entry<T>>, t: seq<Entry<T>>)
    requires multiset(s) == multiset(t) && DistinctIds(s)
    ensures DistinctIds(t)
  {
    forall i, j | 0 <= i < j < |t| ensures t[i].id != t[j].id {
      assert t[i] in multiset(s) && t[j] in multiset(s);
      var a :| 0 <= a < |s| && s[a] == t[i];
      var b :| 0 <= b < |s| && s[b] == t[j];
      if a == b {
        Twice(t, i, j);
        Once(s, a);
      }
    }
  }

  lemma Twice<T>(t: seq<Entry<T>>, i: nat, j: nat)
    requires i < j < |t| && t[i] == t[j]
    ensures multiset(t)[t[i]] >= 2
  {
    assert t == t[..i] + [t[i]] + t[i + 1..j] + [t[j]] + t[j + 1..];
  }

  lemma Once<T>(s: seq<Entry<T>>, a: nat)
    requires a < |s| && DistinctIds(s)
    ensures multiset(s)[s[a]] == 1
  {
    assert s == s[..a] + [s[a]] + s[a + 1..];
    assert s[a] !in s[..a] && s[a] !in s[a + 1..];
  }

  lemma StrictIsDistinct<T>(s: seq<Entry<T>>)
    requires StrictlyAscending(s)
    ensures DistinctIds(s)
  {
    forall i, j | 0 <= i < j < |s| ensures s[i].id != s[j].id {
      BeforeIrreflexive(s[i].id);
    }
  }

  lemma DistinctAscends<T>(s: seq<Entry<T>>)
    requires DistinctIds(s)
    ensures StrictlyAscending(SortById(s)) && DistinctIds(SortById(s))
  {
    DistinctIgnoresOrder(s, SortById(s));
    SortAscending(s);
    NeighboursDecide(SortById(s));
  }

  lemma SortFixesStrict<T>(s: seq<Entry<T>>)
    requires StrictlyAscending(s)
    ensures SortById(s) == s
  {
    StrictIsDistinct(s);
    DistinctAscends(s);
    StrictOrderIsUnique(SortById(s), s);
  }
}
