/** Nesting resolution: entities are grouped by offset, the groups are taken
    from the highest offset to the lowest, and inside a group the members
    after the first are processed in reverse input order, the first-listed
    member last. */
module Grouping {
  import opened Entities

  /** The members of `es` at offset `o`, in input order. */
  function WithOffset(es: seq<Entity>, o: nat): (r: seq<Entity>)
    ensures |r| <= |es|
    ensures forall e | e in r :: e in es && e.offset == o
    ensures forall e | e in es && e.offset == o :: e in r
  {
    if es == [] then []
    else (if es[0].offset == o then [es[0]] else []) + WithOffset(es[1..], o)
  }

  /** A bucket keeps input order: its first member is the first-listed
      entity at that offset. */
  lemma {:induction false} WithOffsetFirst(es: seq<Entity>, o: nat, k: nat)
    requires k < |es| && es[k].offset == o
    requires forall i | 0 <= i < k :: es[i].offset != o
    ensures WithOffset(es, o) != [] && WithOffset(es, o)[0] == es[k]
  {
    if k > 0 {
      WithOffsetFirst(es[1..], o, k - 1);
    }
  }

  /** The members of `es` at any other offset, in input order. */
  function WithoutOffset(es: seq<Entity>, o: nat): (r: seq<Entity>)
    ensures |r| <= |es|
    ensures forall e | e in r :: e in es && e.offset != o
    ensures (exists e | e in es :: e.offset == o) ==> |r| < |es|
  {
    if es == [] then []
    else (if es[0].offset != o then [es[0]] else []) + WithoutOffset(es[1..], o)
  }

  function MaxOffset(es: seq<Entity>): (m: nat)
    requires es != []
    ensures exists e | e in es :: e.offset == m
    ensures forall e | e in es :: e.offset <= m
  {
    if |es| == 1 then es[0].offset
    else
      var m := MaxOffset(es[1..]);
      if es[0].offset >= m then es[0].offset else m
  }

  /** `_.groupBy(entities, 'offset')` with its buckets taken from the highest
      offset to the lowest. */
  function Groups(es: seq<Entity>): (gs: seq<seq<Entity>>)
    ensures forall g | g in gs :: g != []
    ensures forall i | 0 <= i < |gs| :: gs[i] != []
    ensures forall g, e | g in gs && e in g :: e in es
    decreases |es|
  {
    if es == [] then []
    else
      var m := MaxOffset(es);
      [WithOffset(es, m)] + Groups(WithoutOffset(es, m))
  }

  /** The offset shared by a group. */
  function Offset(g: seq<Entity>): nat
    requires g != []
  {
    g[0].offset
  }

  function Flatten(gs: seq<seq<Entity>>): seq<Entity>
  {
    if gs == [] then [] else gs[0] + Flatten(gs[1..])
  }

  function Reverse(s: seq<Entity>): (r: seq<Entity>)
    ensures |r| == |s|
    ensures forall i | 0 <= i < |s| :: r[i] == s[|s| - 1 - i]
  {
    if s == [] then [] else Reverse(s[1..]) + [s[0]]
  }

  /** The order in which a group is processed:
      `_.reverse(_.tail(group))`, then the group's first member. */
  function Chain(g: seq<Entity>): (r: seq<Entity>)
    ensures |r| == |g|
    ensures g != [] ==> r[|r| - 1] == g[0]
  {
    if g == [] then [] else Reverse(g[1..]) + [g[0]]
  }

  function Chains(gs: seq<seq<Entity>>): seq<seq<Entity>>
    ensures |Chains(gs)| == |gs|
  {
    if gs == [] then [] else [Chain(gs[0])] + Chains(gs[1..])
  }

  /** Every group is the bucket of all entities at its offset, in input
      order, and all its members share that offset. */
  lemma {:induction false} GroupsAreBuckets(es: seq<Entity>)
    ensures forall g, e | g in Groups(es) && e in g :: e.offset == Offset(g)
    ensures forall g | g in Groups(es) :: g == WithOffset(es, Offset(g))
    decreases |es|
  {
    if es != [] {
      var m := MaxOffset(es);
      var rest := WithoutOffset(es, m);
      GroupsAreBuckets(rest);
      var g0 := WithOffset(es, m);
      assert g0[0] in g0;
      assert Groups(es) == [g0] + Groups(rest);
      forall g | g in Groups(rest) ensures g == WithOffset(es, Offset(g)) {
        assert g[0] in g;
        WithOffsetSkips(es, m, Offset(g));
      }
    }
  }

  /** The groups' offsets strictly decrease. */
  lemma {:induction false} GroupsDescend(es: seq<Entity>)
    ensures forall i, j | 0 <= i < j < |Groups(es)| ::
              Offset(Groups(es)[i]) > Offset(Groups(es)[j])
    decreases |es|
  {
    if es != [] {
      var m := MaxOffset(es);
      var rest := WithoutOffset(es, m);
      var gs := Groups(es);
      var tailGroups := Groups(rest);
      GroupsDescend(rest);
      assert gs == [WithOffset(es, m)] + tailGroups;
      assert gs[0][0] in gs[0];
      assert Offset(gs[0]) == m;
      forall j | 0 < j < |gs| ensures Offset(gs[j]) == Offset(tailGroups[j - 1]) < m {
        var g := tailGroups[j - 1];
        assert gs[j] == g;
        assert g in tailGroups && g[0] in g;
        GroupMemberIn(rest, g, g[0]);
        BelowMaxOffset(es, g[0]);
      }
      forall i, j | 0 < i < j < |gs| ensures Offset(gs[i]) > Offset(gs[j]) {
        assert Offset(tailGroups[i - 1]) > Offset(tailGroups[j - 1]);
      }
    }
  }

  lemma GroupMemberIn(es: seq<Entity>, g: seq<Entity>, e: Entity)
    requires g in Groups(es) && e in g
    ensures e in es
  {
  }

  lemma BelowMaxOffset(es: seq<Entity>, e: Entity)
    requires es != [] && e in WithoutOffset(es, MaxOffset(es))
    ensures e.offset < MaxOffset(es)
  {
  }

  /** Every offset present in the input has its group. */
  lemma {:induction false} GroupsCover(es: seq<Entity>, e: Entity)
    requires e in es
    ensures exists g | g in Groups(es) :: Offset(g) == e.offset
    decreases |es|
  {
    var m := MaxOffset(es);
    var rest := WithoutOffset(es, m);
    var g0 := WithOffset(es, m);
    assert Groups(es) == [g0] + Groups(rest);
    GroupsAreBuckets(es);
    if e.offset == m {
      assert g0 in Groups(es) && g0[0] in g0;
    } else {
      WithoutOffsetKeeps(es, m, e);
      GroupsCover(rest, e);
      var g :| g in Groups(rest) && Offset(g) == e.offset;
      assert g in Groups(es);
    }
  }

  lemma {:induction false} WithOffsetSkips(es: seq<Entity>, m: nat, o: nat)
    requires m != o
    ensures WithOffset(WithoutOffset(es, m), o) == WithOffset(es, o)
  {
    if es != [] {
      WithOffsetSkips(es[1..], m, o);
      var head := if es[0].offset == o then [es[0]] else [];
      assert WithOffset(es, o) == head + WithOffset(es[1..], o);
      if es[0].offset != m {
        var r := [es[0]] + WithoutOffset(es[1..], m);
        assert WithoutOffset(es, m) == r;
        assert r[0] == es[0] && r[1..] == WithoutOffset(es[1..], m);
        assert WithOffset(r, o) == head + WithOffset(r[1..], o);
      } else {
        assert WithoutOffset(es, m) == WithoutOffset(es[1..], m);
      }
    }
  }

  lemma {:induction false} WithoutOffsetKeeps(es: seq<Entity>, m: nat, e: Entity)
    requires e in es && e.offset != m
    ensures e in WithoutOffset(es, m)
  {
    if es[0] != e {
      WithoutOffsetKeeps(es[1..], m, e);
    }
  }

  lemma {:induction false} SplitByOffset(es: seq<Entity>, o: nat)
    ensures multiset(es) == multiset(WithOffset(es, o)) + multiset(WithoutOffset(es, o))
  {
    if es != [] {
      SplitByOffset(es[1..], o);
      assert es == [es[0]] + es[1..];
    }
  }

  /** Grouping loses and duplicates nothing: the groups together are a
      permutation of the input. */
  lemma {:induction false} GroupsPartition(es: seq<Entity>)
    ensures multiset(Flatten(Groups(es))) == multiset(es)
    decreases |es|
  {
    if es != [] {
      var m := MaxOffset(es);
      GroupsPartition(WithoutOffset(es, m));
      SplitByOffset(es, m);
      var gs := Groups(es);
      assert gs[1..] == Groups(WithoutOffset(es, m));
    }
  }

  /** In a group's processing order the first-listed member comes last and
      the others come in reverse input order. */
  lemma ChainOrder(g: seq<Entity>)
    requires g != []
    ensures |Chain(g)| == |g|
    ensures Chain(g)[|g| - 1] == g[0]
    ensures forall i | 0 <= i < |g| - 1 :: Chain(g)[i] == g[|g| - 1 - i]
  {
    var tail := g[1..];
    var rev := Reverse(tail);
    var c := Chain(g);
    assert c == rev + [g[0]];
    forall i | 0 <= i < |g| - 1 ensures c[i] == g[|g| - 1 - i] {
      assert c[i] == rev[i];
      assert rev[i] == tail[|tail| - 1 - i];
    }
  }

  /** A group's processing order is a permutation of the group. */
  lemma ChainMultiset(g: seq<Entity>)
    requires g != []
    ensures multiset(Chain(g)) == multiset(g)
  {
    var tail := g[1..];
    ReverseMultiset(tail);
    calc {
      multiset(Chain(g));
      multiset(Reverse(tail) + [g[0]]);
      multiset(Reverse(tail)) + multiset{g[0]};
      multiset(tail) + multiset{g[0]};
      { assert g == [g[0]] + tail; }
      multiset(g);
    }
  }

  lemma {:induction false} ReverseMultiset(s: seq<Entity>)
    ensures multiset(Reverse(s)) == multiset(s)
  {
    if s != [] {
      ReverseMultiset(s[1..]);
      assert s == [s[0]] + s[1..];
    }
  }

  /** Every input entity is processed exactly once: the concatenated
      processing orders of all groups are a permutation of the input. */
  lemma {:induction false} EveryEntityProcessedOnce(es: seq<Entity>)
    ensures multiset(Flatten(Chains(Groups(es)))) == multiset(es)
    ensures |Flatten(Chains(Groups(es)))| == |es|
  {
    GroupsPartition(es);
    ChainsPermute(Groups(es));
    assert |Flatten(Chains(Groups(es)))| == |multiset(Flatten(Chains(Groups(es))))|;
  }

  lemma {:induction false} ChainsPermute(gs: seq<seq<Entity>>)
    requires forall i | 0 <= i < |gs| :: gs[i] != []
    ensures multiset(Flatten(Chains(gs))) == multiset(Flatten(gs))
  {
    if gs != [] {
      ChainMultiset(gs[0]);
      ChainsPermute(gs[1..]);
    }
  }

  /** Entities sharing an offset are listed outer-first: no member is
      longer than one listed before it (equal lengths allowed). */
  predicate OuterFirst(es: seq<Entity>)
  {
    forall i, j | 0 <= i < j < |es| && es[i].offset == es[j].offset :: es[i].length >= es[j].length
  }

  /** A processing order in which each entity is at least as long as the
      one processed before it, all at one offset. */
  predicate Nested(c: seq<Entity>)
  {
    && (forall i | 0 <= i < |c| :: c[i].offset == c[0].offset)
    && (forall i, j | 0 <= i < j < |c| :: c[i].length <= c[j].length)
  }

  lemma {:induction false} WithOffsetOuterFirst(es: seq<Entity>, o: nat)
    requires OuterFirst(es)
    ensures OuterFirst(WithOffset(es, o))
  {
    if es != [] {
      var tail := es[1..];
      assert OuterFirst(tail) by {
        forall i, j | 0 <= i < j < |tail| && tail[i].offset == tail[j].offset
          ensures tail[i].length >= tail[j].length
        {
          assert tail[i] == es[i + 1] && tail[j] == es[j + 1];
        }
      }
      WithOffsetOuterFirst(tail, o);
      var w := WithOffset(tail, o);
      if es[0].offset == o {
        var r := [es[0]] + w;
        forall i, j | 0 <= i < j < |r| && r[i].offset == r[j].offset
          ensures r[i].length >= r[j].length
        {
          if i > 0 {
            assert r[i] == w[i - 1] && r[j] == w[j - 1];
          } else {
            assert r[j] == w[j - 1];
            assert r[j] in tail;
            var k :| 0 <= k < |tail| && tail[k] == r[j];
            assert es[k + 1] == r[j];
          }
        }
      }
    }
  }

  /** A group whose members share an offset and are listed outer-first is
      processed from the innermost (shortest) member to the outermost, the
      length never decreasing along the way. */
  lemma ChainOfOuterFirstGroup(g: seq<Entity>)
    requires g != []
    requires forall e | e in g :: e.offset == Offset(g)
    requires OuterFirst(g)
    ensures Nested(Chain(g))
  {
    ChainOrder(g);
    var c := Chain(g);
    var n := |g|;
    forall i | 0 <= i < n ensures c[i] == g[if i == n - 1 then 0 else n - 1 - i] {
    }
    forall i | 0 <= i < n ensures c[i].offset == c[0].offset {
      assert c[i] in g && c[0] in g;
    }
    forall i, j | 0 <= i < j < n ensures c[i].length <= c[j].length {
      var gi := if i == n - 1 then 0 else n - 1 - i;
      var gj := if j == n - 1 then 0 else n - 1 - j;
      assert gj < gi;
      assert g[gj].offset == g[gi].offset by { assert g[gj] in g && g[gi] in g; }
    }
  }

  /** Under the outer-first listing, every group's processing order runs
      from the innermost entity to the outermost, the first-listed last. */
  lemma ChainNested(es: seq<Entity>, g: seq<Entity>)
    requires OuterFirst(es)
    requires g in Groups(es)
    ensures Nested(Chain(g))
    ensures Chain(g)[|g| - 1] == g[0]
  {
    GroupsAreBuckets(es);
    WithOffsetOuterFirst(es, Offset(g));
    ChainOrder(g);
    ChainOfOuterFirstGroup(g);
  }
}
