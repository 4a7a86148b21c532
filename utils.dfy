/**
  Reordering a catalog by display name (`Utils.sortByValues`): the result
  holds the same code -> name entries, ordered by name.
 */
module Utils {
  import opened Entities

  /**
    Code-point order, character by character, with a proper prefix before
    the longer string. It agrees with Java's `String.compareTo` on text
    without supplementary characters (those above U+FFFF).
   */
  predicate NameLeq(a: string, b: string) {
    if a == [] then true
    else if b == [] then false
    else if a[0] != b[0] then a[0] < b[0]
    else NameLeq(a[1..], b[1..])
  }

  lemma {:induction false} NameLeqTotal(a: string, b: string)
    ensures NameLeq(a, b) || NameLeq(b, a)
  {
    if a != [] && b != [] && a[0] == b[0] {
      NameLeqTotal(a[1..], b[1..]);
    }
  }

  lemma {:induction false} NameLeqTransitive(a: string, b: string, c: string)
    requires NameLeq(a, b) && NameLeq(b, c)
    ensures NameLeq(a, c)
  {
    if a != [] && b != [] && c != [] && a[0] == b[0] == c[0] {
      NameLeqTransitive(a[1..], b[1..], c[1..]);
    }
  }

  /** Each entry's name is at most the next one's. */
  ghost predicate SortedByName(s: seq<Entry>) {
    forall i :: 0 <= i < |s| - 1 ==> NameLeq(s[i].name, s[i + 1].name)
  }

  /** Puts `e` in front of the first entry whose name is not below its own. */
  function Insert(e: Entry, s: seq<Entry>): (r: seq<Entry>)
    requires SortedByName(s)
    ensures |r| == |s| + 1
    ensures SortedByName(r)
    ensures multiset(r) == multiset(s) + multiset{e}
    ensures r[0] == e || (|s| > 0 && r[0] == s[0])
  {
    if s == [] || NameLeq(e.name, s[0].name) then
      [e] + s
    else
      NameLeqTotal(e.name, s[0].name);
      var t := Insert(e, s[1..]);
      assert s == [s[0]] + s[1..];
      [s[0]] + t
  }

  /** Same multiset, same members. */
  lemma SameMembers(s: seq<Entry>, t: seq<Entry>)
    requires multiset(s) == multiset(t)
    ensures forall x :: x in s <==> x in t
  {
    assert forall x :: x in s <==> x in multiset(s);
    assert forall x :: x in t <==> x in multiset(t);
  }

  /** Inserting an entry whose code is new keeps the codes distinct. */
  lemma {:induction false} InsertKeepsDistinct(e: Entry, s: seq<Entry>)
    requires SortedByName(s) && DistinctCodes(s)
    requires forall x :: x in s ==> x.code != e.code
    ensures DistinctCodes(Insert(e, s))
  {
    if s != [] && !NameLeq(e.name, s[0].name) {
      var tail := s[1..];
      InsertKeepsDistinct(e, tail);
      var t := Insert(e, tail);
      HeadCodeFresh(e, s, t);
      PrependKeepsDistinct(s[0], t);
    }
  }

  /** The first entry's code is not taken by anything the rest becomes after inserting `e`. */
  lemma HeadCodeFresh(e: Entry, s: seq<Entry>, t: seq<Entry>)
    requires |s| > 0 && DistinctCodes(s)
    requires forall x :: x in s ==> x.code != e.code
    requires multiset(t) == multiset(s[1..]) + multiset{e}
    ensures forall x :: x in t ==> x.code != s[0].code
  {
    SameMembers(t, s[1..] + [e]);
    forall x | x in t
      ensures x.code != s[0].code
    {
      if x != e {
        var k :| 0 <= k < |s[1..]| && s[1..][k] == x;
        assert s[k + 1] == x;
      }
    }
  }

  lemma PrependKeepsDistinct(h: Entry, t: seq<Entry>)
    requires DistinctCodes(t)
    requires forall x :: x in t ==> x.code != h.code
    ensures DistinctCodes([h] + t)
  {
  }

  /** `Utils.sortByValues`: the entries of `m` reordered by display name. */
  function SortByValues(m: OrderedMap): (r: OrderedMap)
    ensures SortedByName(r)
    ensures multiset(r) == multiset(m)
  {
    if m == [] then []
    else
      var rest: OrderedMap := m[1..];
      var t := SortByValues(rest);
      SameMembers(t, rest);
      assert forall x :: x in rest ==> x.code != m[0].code by {
        forall x | x in rest ensures x.code != m[0].code {
          var k :| 0 <= k < |rest| && rest[k] == x;
          assert m[k + 1] == x;
        }
      }
      InsertKeepsDistinct(m[0], t);
      assert m == [m[0]] + rest;
      Insert(m[0], t)
  }

  /** Sorting keeps the catalog the same map: every code keeps its name and no code is added or lost. */
  lemma SortKeepsMap(m: OrderedMap)
    ensures AsMap(SortByValues(m)) == AsMap(m)
    ensures Keys(SortByValues(m)) == Keys(m)
  {
    var r := SortByValues(m);
    SameMembers(r, m);
    SameEntriesSameMap(r, m);
  }

  /** The first entry of a name-sorted catalog has the least name. */
  lemma {:induction false} FirstIsLeast(s: seq<Entry>)
    requires SortedByName(s) && |s| > 0
    ensures forall e :: e in s ==> NameLeq(s[0].name, e.name)
  {
    if |s| == 1 {
      NameLeqReflexive(s[0].name);
    } else {
      FirstIsLeast(s[1..]);
      forall e | e in s
        ensures NameLeq(s[0].name, e.name)
      {
        if e == s[0] {
          NameLeqReflexive(e.name);
        } else {
          assert e in s[1..];
          NameLeqTransitive(s[0].name, s[1].name, e.name);
        }
      }
    }
  }

  lemma NameLeqReflexive(a: string)
    ensures NameLeq(a, a)
  {
  }
}
