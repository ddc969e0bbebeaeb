/** Orderings over the primary keys of a table: the greatest and least key of a set,
    and the keys of a set listed in descending order (`ORDER BY id DESC`). */
module Keys {

  lemma {:induction false} HasGreatest(s: set<nat>)
    requires s != {}
    ensures exists m :: m in s && forall x :: x in s ==> x <= m
  {
    var y :| y in s;
    if s != {y} {
      HasGreatest(s - {y});
      var m :| m in s - {y} && forall x :: x in s - {y} ==> x <= m;
      var g := if y <= m then m else y;
      forall x | x in s ensures x <= g {
        if x != y { assert x in s - {y}; }
      }
      assert g in s;
    } else {
      assert forall x :: x in s ==> x <= y;
    }
  }

  /** The greatest key of a non-empty set. */
  function Greatest(s: set<nat>): (m: nat)
    requires s != {}
    ensures m in s && forall x :: x in s ==> x <= m
  {
    HasGreatest(s);
    var m :| m in s && forall x :: x in s ==> x <= m;
    m
  }

  lemma {:induction false} HasLeast(s: set<nat>)
    requires s != {}
    ensures exists m :: m in s && forall x :: x in s ==> m <= x
  {
    var y :| y in s;
    if s != {y} {
      HasLeast(s - {y});
      var m :| m in s - {y} && forall x :: x in s - {y} ==> m <= x;
      var g := if m <= y then m else y;
      forall x | x in s ensures g <= x {
        if x != y { assert x in s - {y}; }
      }
      assert g in s;
    } else {
      assert forall x :: x in s ==> y <= x;
    }
  }

  /** The least key of a non-empty set: the first row by primary key. */
  function Least(s: set<nat>): (m: nat)
    requires s != {}
    ensures m in s && forall x :: x in s ==> m <= x
  {
    HasLeast(s);
    var m :| m in s && forall x :: x in s ==> m <= x;
    m
  }

  predicate Descending(r: seq<nat>) {
    forall i, j :: 0 <= i < j < |r| ==> r[i] > r[j]
  }

  /** `r` lists exactly the keys of `s`, greatest first. */
  ghost predicate ListsDescending(r: seq<nat>, s: set<nat>) {
    |r| == |s| && (forall x :: x in r <==> x in s) && Descending(r)
  }

  /** Every finite set of keys has a descending listing: its greatest key followed by
      the listing of the rest. */
  lemma {:induction false} DescendingListingExists(s: set<nat>)
    ensures exists r :: ListsDescending(r, s)
    decreases s
  {
    if s == {} {
      assert ListsDescending([], s);
    } else {
      var m := Greatest(s);
      DescendingListingExists(s - {m});
      var rest :| ListsDescending(rest, s - {m});
      var r := [m] + rest;
      forall i, j | 0 <= i < j < |r| ensures r[i] > r[j] {
        if i == 0 {
          assert r[j] == rest[j - 1] && rest[j - 1] in s - {m};
        } else {
          assert r[i] == rest[i - 1] && r[j] == rest[j - 1];
        }
      }
      assert ListsDescending(r, s);
    }
  }

  /** The keys of `s`, greatest first (the listing is unique: see `SortedDescRank`). */
  ghost function SortedDesc(s: set<nat>): (r: seq<nat>)
    ensures |r| == |s|
    ensures forall x :: x in r <==> x in s
    ensures forall i :: 0 <= i < |r| ==> r[i] in s
    ensures Descending(r)
  {
    DescendingListingExists(s);
    var r :| ListsDescending(r, s);
    r
  }

  /** The number of keys of `s` greater than `y`. */
  function CountAbove(s: set<nat>, y: nat): nat {
    |set x | x in s && x > y|
  }

  /** The first `j` entries of a descending listing are `j` distinct keys. */
  lemma {:induction false} PrefixKeysCount(r: seq<nat>, j: nat)
    requires Descending(r) && j <= |r|
    ensures |set i | 0 <= i < j :: r[i]| == j
  {
    if j > 0 {
      PrefixKeysCount(r, j - 1);
      var before := set i | 0 <= i < j - 1 :: r[i];
      assert (set i | 0 <= i < j :: r[i]) == before + {r[j - 1]};
      assert r[j - 1] !in before;
    }
  }

  /** In a descending listing of `s`, exactly the `j` keys before position `j` lie
      above the key `y` at position `j`. */
  lemma AboveIsPrefix(s: set<nat>, r: seq<nat>, j: nat, y: nat)
    requires ListsDescending(r, s) && j < |r| && y == r[j]
    ensures CountAbove(s, y) == j
  {
    var above := set x | x in s && x > y;
    var prefix := set i | 0 <= i < j :: r[i];
    forall x | x in above ensures x in prefix {
      assert x in r;
      var k :| 0 <= k < |r| && r[k] == x;
      assert k < j;
    }
    forall x | x in prefix ensures x in above {
      var i :| 0 <= i < j && r[i] == x;
      assert r[i] in r;
    }
    assert above == prefix;
    PrefixKeysCount(r, j);
  }

  /** The key at position `j` of the descending listing has exactly `j` keys above it,
      so the position of every key is determined by the set alone. */
  lemma SortedDescRank(s: set<nat>, j: nat)
    requires j < |s|
    ensures CountAbove(s, SortedDesc(s)[j]) == j
  {
    var r := SortedDesc(s);
    AboveIsPrefix(s, r, j, r[j]);
  }

  /** The last key of the descending listing is the least key. */
  lemma SortedDescLastIsLeast(s: set<nat>)
    requires s != {}
    ensures SortedDesc(s)[|s| - 1] == Least(s)
  {
    var r := SortedDesc(s);
    var last := r[|r| - 1];
    assert last in r;
    forall x | x in s ensures last <= x {
      assert x in r;
      var k :| 0 <= k < |r| && r[k] == x;
    }
  }
}
