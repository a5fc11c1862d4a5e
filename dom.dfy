/**
 * The part of the DOM the tree list relies on: an element keeps an ordered
 * list of attached child views. `appendChild` moves a view that is already
 * attached to the end, `insertBefore(v, firstChild)` puts a view first, and
 * `removeChild` takes an attached view out.
 */
module Dom {

  /** What can be attached to an element: a node's label, a node's expander
    * (toggle icon), or the container element of a node, known by its `uid`. */
  datatype View = Label | Expander | Box(uid: nat)

  /** `s` with every view listed in `vs` taken out, the rest kept in order. */
  function Filtered(s: seq<View>, vs: seq<View>): (r: seq<View>)
    ensures |r| <= |s|
    decreases |s|
  {
    if s == [] then []
    else (if s[0] in vs then [] else [s[0]]) + Filtered(s[1..], vs)
  }

  /** The sequence of views of a surface after `appendChild(v)`. */
  function Appended(s: seq<View>, v: View): (r: seq<View>)
    ensures |r| > 0 && r[|r| - 1] == v
  {
    Filtered(s, [v]) + [v]
  }

  /** A view stays attached exactly when it was attached and is not taken out. */
  lemma {:induction false} FilteredHas(s: seq<View>, vs: seq<View>, w: View)
    ensures w in Filtered(s, vs) <==> w in s && w !in vs
    decreases |s|
  {
    if s != [] {
      FilteredHas(s[1..], vs, w);
      assert s == [s[0]] + s[1..];
    }
  }

  /** The views after appending the first `n` views of `vs`, one at a time. */
  function AppendedUpTo(s: seq<View>, vs: seq<View>, n: nat): seq<View>
    requires n <= |vs|
    decreases n
  {
    if n == 0 then s else Appended(AppendedUpTo(s, vs, n - 1), vs[n - 1])
  }

  /** No view occurs twice. */
  predicate Distinct(vs: seq<View>)
  {
    forall i, j :: 0 <= i < j < |vs| ==> vs[i] != vs[j]
  }

  lemma {:induction false} FilteredConcat(a: seq<View>, b: seq<View>, vs: seq<View>)
    ensures Filtered(a + b, vs) == Filtered(a, vs) + Filtered(b, vs)
    decreases |a|
  {
    if a == [] {
      assert a + b == b;
    } else {
      assert (a + b)[0] == a[0] && (a + b)[1..] == a[1..] + b;
      FilteredConcat(a[1..], b, vs);
    }
  }

  /** Filtering by views none of which is present changes nothing. */
  lemma {:induction false} FilteredNoneIn(s: seq<View>, vs: seq<View>)
    requires forall w | w in vs :: w !in s
    ensures Filtered(s, vs) == s
    decreases |s|
  {
    if s != [] {
      assert s[0] in s;
      FilteredNoneIn(s[1..], vs);
    }
  }

  /** Filtering twice is filtering once by both lists. */
  lemma {:induction false} FilteredTwice(s: seq<View>, vs: seq<View>, ws: seq<View>)
    ensures Filtered(Filtered(s, vs), ws) == Filtered(s, vs + ws)
    decreases |s|
  {
    if s != [] {
      FilteredTwice(s[1..], vs, ws);
      var head := if s[0] in vs then [] else [s[0]];
      FilteredConcat(head, Filtered(s[1..], vs), ws);
    }
  }

  /** Taking out the views of `vs` up to and including position `i`. */
  lemma FilteredStep(s: seq<View>, vs: seq<View>, i: nat)
    requires i < |vs|
    ensures Filtered(Filtered(s, vs[..i]), [vs[i]]) == Filtered(s, vs[..i + 1])
  {
    FilteredTwice(s, vs[..i], [vs[i]]);
    assert vs[..i] + [vs[i]] == vs[..i + 1];
  }

  /**
   * Appending distinct views one by one leaves the views that were not
   * appended in their old order, followed by the appended views in the order
   * they were appended: views already present are moved, not duplicated.
   */
  lemma {:induction false} AppendedUpToMoves(s: seq<View>, vs: seq<View>, n: nat)
    requires Distinct(vs) && n <= |vs|
    ensures AppendedUpTo(s, vs, n) == Filtered(s, vs[..n]) + vs[..n]
    decreases n
  {
    if n == 0 {
      FilteredNoneIn(s, vs[..0]);
    } else {
      var init, v := vs[..n - 1], vs[n - 1];
      assert vs[..n] == init + [v];
      AppendedUpToMoves(s, vs, n - 1);
      assert v !in init by {
        forall k | 0 <= k < |init| ensures init[k] != v {
          assert init[k] == vs[k];
        }
      }
      calc {
        AppendedUpTo(s, vs, n);
        Filtered(Filtered(s, init) + init, [v]) + [v];
        { FilteredConcat(Filtered(s, init), init, [v]); }
        Filtered(Filtered(s, init), [v]) + Filtered(init, [v]) + [v];
        { FilteredTwice(s, init, [v]); FilteredNoneIn(init, [v]); }
        Filtered(s, vs[..n]) + init + [v];
      }
    }
  }

  /** Appending fresh distinct views extends the surface by exactly those views. */
  lemma AppendedFresh(s: seq<View>, vs: seq<View>)
    requires Distinct(vs)
    requires forall w | w in vs :: w !in s
    ensures AppendedUpTo(s, vs, |vs|) == s + vs
  {
    AppendedUpToMoves(s, vs, |vs|);
    assert vs[..|vs|] == vs;
    FilteredNoneIn(s, vs);
  }

  /** Taking out every view of a list that holds only such views leaves nothing. */
  lemma {:induction false} FilteredAllIn(s: seq<View>, vs: seq<View>)
    requires forall w | w in s :: w in vs
    ensures Filtered(s, vs) == []
    decreases |s|
  {
    if s != [] {
      assert s[0] in s;
      FilteredAllIn(s[1..], vs);
    }
  }

  /** `removeChild(v)`: the DOM throws unless `v` is attached, so only an
    * attached view can be removed. */
  function Removed(s: seq<View>, v: View): (r: seq<View>)
    requires v in s
    ensures forall w :: w in r <==> w in s && w != v
  {
    var r := Filtered(s, [v]);
    assert forall w :: w in r <==> w in s && w != v by {
      forall w ensures w in r <==> w in s && w != v {
        FilteredHas(s, [v], w);
      }
    }
    r
  }

  /**
   * Appending each of a list of distinct views to a surface that shows `head`,
   * with those views after it or not, leaves `head` followed by the views:
   * re-appending attached views only moves them into the same place.
   */
  lemma Reattached(head: seq<View>, vs: seq<View>, wasAttached: bool)
    requires Distinct(vs)
    requires forall w | w in head :: w !in vs
    ensures AppendedUpTo(head + (if wasAttached then vs else []), vs, |vs|) == head + vs
  {
    var shown := head + (if wasAttached then vs else []);
    AppendedUpToMoves(shown, vs, |vs|);
    assert vs[..|vs|] == vs;
    Detached(head, vs, wasAttached);
    assert Filtered(shown, vs) == head;
  }

  /**
   * Removing a list of views from a surface that shows `head`, with those
   * views after it or not, leaves `head`.
   */
  lemma Detached(head: seq<View>, vs: seq<View>, wasAttached: bool)
    requires forall w | w in head :: w !in vs
    ensures Filtered(head + (if wasAttached then vs else []), vs) == head
  {
    var tail := if wasAttached then vs else [];
    FilteredConcat(head, tail, vs);
    FilteredNoneIn(head, vs);
    FilteredAllIn(tail, vs);
  }

  /** An element identity no container attached in `vs` has: the DOM's
    * `createElement` always returns a new element. */
  function FreshUid(vs: seq<View>): (u: nat)
    ensures forall w | w in vs && w.Box? :: w.uid < u
    decreases |vs|
  {
    if vs == [] then 0
    else
      var u := FreshUid(vs[1..]);
      if vs[0].Box? && vs[0].uid >= u then vs[0].uid + 1 else u
  }

  /** A DOM element owned by the caller (the element the tree is rendered
    * into), reduced to its ordered list of attached views. */
  class Surface {
    var attached: seq<View>

    /** `appendChild(v)`: an attached view is moved to the end. */
    method AppendChild(v: View)
      modifies this
      ensures attached == Appended(old(attached), v)
    {
      attached := Appended(attached, v);
    }
  }
}
