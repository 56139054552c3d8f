/** How `Topology`'s nodes list their links, on plain values. One `Side` relates the link lists of the nodes to the
    end each link has on that side; a graph has two sides, outgoing lists with sources and incoming lists with
    destinations. */
module LinkLists {
  import opened ShortestPaths

  /** `s` lists the elements of `m`, each exactly once. */
  ghost predicate ListsOnce<T>(s: seq<T>, m: set<T>)
  {
    if s == [] then m == {} else s[0] in m && ListsOnce(s[1..], m - {s[0]})
  }

  lemma ListsOnceMeans<T>(s: seq<T>, m: set<T>)
    ensures ListsOnce(s, m) ==>
      NoDuplicates(s) && (forall i :: 0 <= i < |s| ==> s[i] in m) && (forall x :: x in m ==> x in s)
  {
    if s != [] && ListsOnce(s, m) {
      ListsOnceMeans(s[1..], m - {s[0]});
      assert forall i :: 0 < i < |s| ==> s[i] == s[1..][i - 1];
      forall x | x in m ensures x in s {
        assert x != s[0] ==> x in s[1..];
      }
    }
  }

  lemma AppendListsOnce<T>(s: seq<T>, m: set<T>, x: T)
    requires ListsOnce(s, m) && x !in m
    ensures ListsOnce(s + [x], m + {x})
  {
    if s != [] {
      AppendListsOnce(s[1..], m - {s[0]}, x);
      assert (s + [x])[1..] == s[1..] + [x];
      assert (m - {s[0]}) + {x} == (m + {x}) - {s[0]};
    }
  }

  lemma WithoutListsOnce<T>(s: seq<T>, m: set<T>, x: T)
    requires ListsOnce(s, m)
    ensures ListsOnce(Without(s, x), m - {x})
    ensures x !in m ==> Without(s, x) == s
  {
    ListsOnceMeans(s, m);
    if s != [] {
      WithoutListsOnce(s[1..], m - {s[0]}, x);
      if s[0] == x {
        assert m - {s[0]} - {x} == m - {x};
      } else {
        var w := Without(s[1..], x);
        assert Without(s, x)[1..] == w;
        assert m - {x} - {s[0]} == m - {s[0]} - {x};
      }
    }
  }

  /** The links that have their end at `n`. */
  ghost function At<N, L>(ends: map<L, N>, n: N): set<L>
  {
    set l | l in ends && ends[l] == n
  }

  /** Each link is listed by its end, exactly once, and by no other node. */
  ghost predicate Side<N, L>(lists: map<N, seq<L>>, ends: map<L, N>)
  {
    && (forall l :: l in ends ==> ends[l] in lists)
    && (forall n {:trigger ListsOnce(lists[n], At(ends, n))} :: n in lists ==> ListsOnce(lists[n], At(ends, n)))
  }

  /** Link `x` taken out of all lists. */
  ghost function Unlisted<N, L>(lists: map<N, seq<L>>, x: L): map<N, seq<L>>
  {
    map m | m in lists :: Without(lists[m], x)
  }

  lemma Unlist<N, L>(lists: map<N, seq<L>>, ends: map<L, N>, x: L)
    requires Side(lists, ends)
    ensures Side(Unlisted(lists, x), ends - {x})
  {
    forall n | n in lists ensures ListsOnce(Without(lists[n], x), At(ends - {x}, n)) {
      WithoutListsOnce(lists[n], At(ends, n), x);
      assert At(ends - {x}, n) == At(ends, n) - {x};
    }
  }

  /** Only the list of the link's own end changes when the link is taken out everywhere. */
  lemma UnlistedAtEnd<N, L>(lists: map<N, seq<L>>, ends: map<L, N>, x: L)
    requires Side(lists, ends)
    ensures Unlisted(lists, x) == if x in ends then lists[ends[x] := Without(lists[ends[x]], x)] else lists
  {
    forall n | n in lists && !(x in ends && ends[x] == n) ensures Without(lists[n], x) == lists[n] {
      WithoutListsOnce(lists[n], At(ends, n), x);
    }
  }

  lemma AppendEnd<N, L>(lists: map<N, seq<L>>, ends: map<L, N>, x: L, n: N)
    requires Side(lists, ends) && n in lists && x !in ends
    ensures Side(lists[n := lists[n] + [x]], ends[x := n])
  {
    AppendListsOnce(lists[n], At(ends, n), x);
    assert At(ends[x := n], n) == At(ends, n) + {x};
    forall m | m in lists && m != n ensures At(ends[x := n], m) == At(ends, m) {
    }
  }

  lemma AddEmpty<N, L>(lists: map<N, seq<L>>, ends: map<L, N>, n: N)
    requires Side(lists, ends) && n !in lists
    ensures Side(lists[n := []], ends)
  {
    assert At(ends, n) == {};
  }

  lemma DropEmpty<N, L>(lists: map<N, seq<L>>, ends: map<L, N>, n: N)
    requires Side(lists, ends) && n in lists && lists[n] == []
    ensures Side(lists - {n}, ends) && forall l :: l in ends ==> ends[l] != n
  {
    assert ListsOnce(lists[n], At(ends, n));
    forall l | l in ends ensures ends[l] != n {
      assert l in ends && ends[l] == n ==> l in At(ends, n);
    }
  }
}
