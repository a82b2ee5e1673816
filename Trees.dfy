/** The ordered price sets of the book (`buy_tree`, `sell_tree`, a
    `std::set<Price>` in src/Book.cpp): strictly increasing sequences, so
    that `begin` is the first element and `rbegin` the last. */
module Trees {
  import opened Types

  ghost predicate Increasing(t: seq<Price>)
  {
    forall i, j :: 0 <= i < j < |t| ==> t[i] < t[j]
  }

  /** `std::set::insert`: the price joins the set, which stays ordered. */
  function Insert(t: seq<Price>, p: Price): (u: seq<Price>)
    requires Increasing(t)
    ensures Increasing(u)
    ensures forall q :: q in u <==> q in t || q == p
    ensures |u| == if p in t then |t| else |t| + 1
  {
    if t == [] then [p]
    else if p < t[0] then
      IncreasingCons(p, t);
      [p] + t
    else if p == t[0] then t
    else
      var rest := Insert(t[1..], p);
      assert forall q :: q in t <==> q == t[0] || q in t[1..];
      IncreasingCons(t[0], rest);
      [t[0]] + rest
  }

  /** After an insertion the lowest and highest prices are the old ones,
      or the new price where it lies beyond them. */
  lemma InsertEnds(t: seq<Price>, p: Price)
    requires Increasing(t)
    ensures var u := Insert(t, p);
      && u[0] == (if t == [] || p < t[0] then p else t[0])
      && u[|u| - 1] == (if t == [] || p > t[|t| - 1] then p else t[|t| - 1])
  {
    var u := Insert(t, p);
    Ends(u, p);
    Ends(u, u[0]);
    Ends(u, u[|u| - 1]);
    if t != [] {
      Ends(t, t[0]);
      Ends(t, t[|t| - 1]);
      Ends(u, t[0]);
      Ends(u, t[|t| - 1]);
      if u[0] != p {
        Ends(t, u[0]);
      }
      if u[|u| - 1] != p {
        Ends(t, u[|u| - 1]);
      }
    }
  }

  /** `std::set::erase`: the price leaves the set, which stays ordered; an
      end of the set that was not the erased price stays where it was. */
  function Remove(t: seq<Price>, p: Price): (u: seq<Price>)
    requires Increasing(t)
    ensures Increasing(u)
    ensures forall q :: q in u <==> q in t && q != p
    ensures |u| == if p in t then |t| - 1 else |t|
    ensures p in t && p != t[0] ==> u != [] && u[0] == t[0]
    ensures p in t && p != t[|t| - 1] ==> u != [] && u[|u| - 1] == t[|t| - 1]
  {
    if t == [] then []
    else if t[0] == p then
      assert p !in t[1..];
      t[1..]
    else
      var rest := Remove(t[1..], p);
      assert forall q :: q in t <==> q == t[0] || q in t[1..];
      assert p in t ==> p in t[1..];
      IncreasingCons(t[0], rest);
      var u := [t[0]] + rest;
      assert rest != [] ==> u[|u| - 1] == rest[|rest| - 1];
      u
  }

  lemma IncreasingCons(x: Price, r: seq<Price>)
    requires Increasing(r) && forall q :: q in r ==> x < q
    ensures Increasing([x] + r)
  {
    var u := [x] + r;
    forall i, j | 0 <= i < j < |u| ensures u[i] < u[j] {
      assert u[j] == r[j - 1] && r[j - 1] in r;
      if i > 0 {
        assert u[i] == r[i - 1];
      }
    }
  }

  /** In an increasing sequence the first element is the least and the last
      the greatest. */
  lemma Ends(t: seq<Price>, q: Price)
    requires Increasing(t) && q in t
    ensures t[0] <= q <= t[|t| - 1]
  {
  }
}
