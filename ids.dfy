/**
 * Sequences of card ids, as the drill session builds its traversal order from
 * them: the identity order `list(range(n))`, the "still to do" comprehension
 * over the remainder of the order, and the ascending `sort` used when the
 * shuffle toggle is off. A card id is the row number of a verse in the deck.
 */
module Ids {

  /** No id is listed twice. */
  predicate NoDup(s: seq<nat>) {
    forall i, j :: 0 <= i < j < |s| ==> s[i] != s[j]
  }

  /** The set of ids listed in `s`. */
  function Elems(s: seq<nat>): set<nat> {
    set x | x in s
  }

  /** The ids of a deck of `n` cards: 0 .. n-1. */
  function Below(n: nat): (r: set<nat>)
    ensures forall x: nat :: x in r <==> x < n
  {
    RangeListsDeck(n);
    Elems(Range(n))
  }

  predicate Ascending(s: seq<nat>) {
    forall i, j :: 0 <= i < j < |s| ==> s[i] <= s[j]
  }

  /** `list(range(n))`: the identity order of a deck of `n` cards. */
  function Range(n: nat): (r: seq<nat>)
    ensures |r| == n
    ensures forall i :: 0 <= i < n ==> r[i] == i
  {
    if n == 0 then [] else Range(n - 1) + [n - 1]
  }

  /** The identity order lists every card of the deck once, in ascending order. */
  lemma RangeListsDeck(n: nat)
    ensures NoDup(Range(n)) && Ascending(Range(n))
    ensures forall x: nat :: x in Elems(Range(n)) <==> x < n
  {
    var r := Range(n);
    forall x: nat | x < n ensures x in Elems(r) {
      assert r[x] == x;
    }
    forall x | x in Elems(r) ensures x < n {
      var k :| 0 <= k < n && r[k] == x;
    }
  }

  /** A deck of `n` cards has `n` ids. */
  lemma {:induction false} BelowSize(n: nat)
    ensures |Below(n)| == n
  {
    if n == 0 {
      assert Below(0) == {};
    } else {
      BelowSize(n - 1);
      assert Below(n) == Below(n - 1) + {n - 1};
    }
  }

  lemma NoDupCons(h: nat, t: seq<nat>)
    ensures NoDup([h] + t) <==> h !in t && NoDup(t)
  {
    var s := [h] + t;
    if h !in t && NoDup(t) {
      forall i, j | 0 <= i < j < |s| ensures s[i] != s[j] {
        if i > 0 {
          assert s[i] == t[i - 1] && s[j] == t[j - 1];
        } else {
          assert s[j] == t[j - 1];
        }
      }
    }
    if NoDup(s) {
      forall i, j | 0 <= i < j < |t| ensures t[i] != t[j] {
        assert t[i] == s[i + 1] && t[j] == s[j + 1];
      }
      forall k | 0 <= k < |t| ensures t[k] != h {
        assert t[k] == s[k + 1] && h == s[0];
      }
    }
  }

  /** Cutting a duplicate-free listing gives two duplicate-free parts with no id in common. */
  lemma NoDupSplit(s: seq<nat>, k: nat)
    requires NoDup(s) && k <= |s|
    ensures NoDup(s[..k]) && NoDup(s[k..])
    ensures Elems(s[..k]) !! Elems(s[k..])
  {
    var a, b := s[..k], s[k..];
    forall i, j | 0 <= i < j < |b| ensures b[i] != b[j] {
      assert b[i] == s[k + i] && b[j] == s[k + j];
    }
    forall x | x in Elems(a) ensures x !in Elems(b) {
      var i :| 0 <= i < |a| && a[i] == x;
      forall j | 0 <= j < |b| ensures b[j] != x {
        assert b[j] == s[k + j];
      }
    }
  }

  /** Joining two duplicate-free listings with no id in common gives a duplicate-free listing. */
  lemma NoDupAppend(a: seq<nat>, b: seq<nat>)
    requires NoDup(a) && NoDup(b) && Elems(a) !! Elems(b)
    ensures NoDup(a + b) && Elems(a + b) == Elems(a) + Elems(b)
  {
    var s := a + b;
    forall i, j | 0 <= i < j < |s| ensures s[i] != s[j] {
      if j >= |a| {
        assert s[j] == b[j - |a|];
        if i < |a| {
          assert s[i] in Elems(a) && s[j] in Elems(b);
        } else {
          assert s[i] == b[i - |a|];
        }
      }
    }
  }

  /** A duplicate-free listing has as many entries as it has distinct ids. */
  lemma {:induction false} NoDupSize(s: seq<nat>)
    requires NoDup(s)
    ensures |Elems(s)| == |s|
  {
    if s != [] {
      var t := s[1..];
      assert s == [s[0]] + t;
      NoDupCons(s[0], t);
      NoDupSize(t);
      assert Elems(s) == {s[0]} + Elems(t);
    }
  }

  /** Being duplicate-free is a property of the multiset of a listing. */
  lemma {:induction false} NoDupCounts(s: seq<nat>)
    ensures NoDup(s) <==> forall x :: multiset(s)[x] <= 1
  {
    if s != [] {
      var h, t := s[0], s[1..];
      assert s == [h] + t;
      NoDupCons(h, t);
      NoDupCounts(t);
      assert multiset(s) == multiset{h} + multiset(t);
      if NoDup(s) {
        assert multiset(t)[h] == 0;
      } else if h in t {
        assert multiset(s)[h] >= 2;
      } else {
        var x :| multiset(t)[x] > 1;
        assert multiset(s)[x] >= multiset(t)[x];
      }
    }
  }

  /** A rearrangement of a duplicate-free listing is duplicate-free and lists the same ids. */
  lemma SameMultisetNoDup(a: seq<nat>, b: seq<nat>)
    requires multiset(a) == multiset(b) && NoDup(a)
    ensures NoDup(b) && Elems(b) == Elems(a)
  {
    NoDupCounts(a);
    NoDupCounts(b);
    forall x ensures x in Elems(a) <==> x in Elems(b) {
      assert x in a <==> x in multiset(a);
      assert x in b <==> x in multiset(b);
    }
  }

  /** Any listing of a set (such as `list(skipped)`, shuffled or not) is
      duplicate-free and lists exactly that set. */
  lemma ListingOfSet(s: seq<nat>, ids: set<nat>)
    requires multiset(s) == multiset(ids)
    ensures NoDup(s) && Elems(s) == ids && |s| == |ids|
  {
    NoDupCounts(s);
    forall x ensures x in Elems(s) <==> x in ids {
      assert x in s <==> x in multiset(s);
    }
    NoDupSize(s);
  }

  /** `[i for i in s if i not in done]`: the ids of `s` that are not yet
      done. */
  function Unfinished(s: seq<nat>, done: set<nat>): (r: seq<nat>)
    ensures Elems(r) == Elems(s) - done
    ensures NoDup(s) ==> NoDup(r)
    ensures |r| <= |s|
  {
    if s == [] then []
    else
      assert s == [s[0]] + s[1..];
      assert Elems(s) == {s[0]} + Elems(s[1..]);
      NoDupCons(s[0], s[1..]);
      var rest := Unfinished(s[1..], done);
      if s[0] in done then rest
      else
        assert Elems([s[0]] + rest) == {s[0]} + Elems(rest);
        NoDupCons(s[0], rest);
        [s[0]] + rest
  }

  lemma AscendingCons(h: nat, t: seq<nat>)
    requires Ascending(t)
    requires forall y :: y in t ==> h <= y
    ensures Ascending([h] + t)
  {
    var s := [h] + t;
    forall i, j | 0 <= i < j < |s| ensures s[i] <= s[j] {
      assert s[j] == t[j - 1];
      if i > 0 {
        assert s[i] == t[i - 1];
      } else {
        assert s[j] in t;
      }
    }
  }

  lemma AscendingHead(s: seq<nat>)
    requires Ascending(s) && s != []
    ensures forall y :: y in s ==> s[0] <= y
  {
    forall y | y in s ensures s[0] <= y {
      var k :| 0 <= k < |s| && s[k] == y;
      if k > 0 {
        assert s[0] <= s[k];
      }
    }
  }

  lemma AscendingTail(s: seq<nat>)
    requires Ascending(s) && s != []
    ensures Ascending(s[1..])
  {
    forall i, j | 0 <= i < j < |s| - 1 ensures s[1..][i] <= s[1..][j] {
      assert s[1..][i] == s[i + 1] && s[1..][j] == s[j + 1];
    }
  }

  /** Inserts `x` into an ascending listing. */
  function Insert(x: nat, s: seq<nat>): (r: seq<nat>)
    requires Ascending(s)
    ensures Ascending(r)
    ensures multiset(r) == multiset(s) + multiset{x}
    ensures forall y :: y in r ==> y == x || y in s
  {
    if s == [] then [x]
    else if x <= s[0] then
      AscendingHead(s);
      AscendingCons(x, s);
      [x] + s
    else
      var rest := Insert(x, s[1..]);
      InsertBehindHead(x, s, rest);
      [s[0]] + rest
  }

  lemma InsertBehindHead(x: nat, s: seq<nat>, rest: seq<nat>)
    requires Ascending(s) && s != [] && s[0] < x
    requires Ascending(rest)
    requires multiset(rest) == multiset(s[1..]) + multiset{x}
    requires forall y :: y in rest ==> y == x || y in s[1..]
    ensures Ascending([s[0]] + rest)
    ensures multiset([s[0]] + rest) == multiset(s) + multiset{x}
    ensures forall y :: y in [s[0]] + rest ==> y == x || y in s
  {
    assert s == [s[0]] + s[1..];
    AscendingHead(s);
    AscendingCons(s[0], rest);
  }

  /** `list.sort()` on ids: the ascending arrangement of `s`. */
  function SortAsc(s: seq<nat>): (r: seq<nat>)
    ensures Ascending(r)
    ensures multiset(r) == multiset(s)
  {
    if s == [] then []
    else
      assert s == [s[0]] + s[1..];
      Insert(s[0], SortAsc(s[1..]))
  }

  /** There is only one ascending arrangement of a multiset of ids, so any
      ascending rearrangement of `s` is `SortAsc(s)`. */
  lemma {:induction false} AscendingUnique(a: seq<nat>, b: seq<nat>)
    requires Ascending(a) && Ascending(b)
    requires multiset(a) == multiset(b)
    ensures a == b
  {
    assert |a| == |multiset(a)| == |multiset(b)| == |b|;
    if a != [] {
      AscendingHead(a);
      AscendingHead(b);
      assert a[0] in multiset(b) && b[0] in multiset(a);
      assert a[0] == b[0];
      assert a == [a[0]] + a[1..];
      assert b == [b[0]] + b[1..];
      assert multiset(a[1..]) == multiset(a) - multiset{a[0]};
      assert multiset(b[1..]) == multiset(b) - multiset{b[0]};
      AscendingTail(a);
      AscendingTail(b);
      AscendingUnique(a[1..], b[1..]);
    }
  }
}
