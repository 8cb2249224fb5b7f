/** A direct rendering of well-nested entities, and the proof that the
    offset-bookkeeping compositor produces exactly that rendering. */
module Rendering {
  import opened Utils
  import opened Entities
  import opened Grouping
  import opened Compositor

  /** `d` is a run of enclosing members at offset `o`, each at least as long
      as the one before it (the first at least `inner`), the growth of all
      of them together fitting in `n` characters. */
  predicate Fits(d: seq<Entity>, o: nat, inner: nat, n: nat)
    decreases |d|
  {
    d == [] ||
    (d[0].offset == o && inner <= d[0].length <= inner + n
     && Fits(d[1..], o, d[0].length, n - (d[0].length - inner)))
  }

  /** Reference rendering of enclosing members: `m` renders the members
      inside, which covered `inner` characters; the next member wraps `m`
      followed by its own escaped remainder taken from the front of `rest`.
      Gives the rendering and the text after the outermost extract. */
  function WrapOutward(m: string, rest: string, d: seq<Entity>, inner: nat): (r: (string, string))
    decreases |d|
  {
    if d == [] then (m, rest)
    else
      var e := d[0];
      var k := if inner <= e.length then Min(e.length - inner, |rest|) else 0;
      WrapOutward(Markup(m + EscapeMarkdownTextByEntity(rest[..k], e), e), rest[k..], d[1..], e.length)
  }

  /** Reference rendering of a chain over the text `seg` starting at its
      offset: the innermost member's escaped extract is wrapped, then each
      enclosing member in turn. */
  function RenderChain(seg: string, c: seq<Entity>): (r: (string, string))
  {
    if c == [] then ([], seg)
    else
      var k := Min(c[0].length, |seg|);
      WrapOutward(Markup(EscapeMarkdownTextByEntity(seg[..k], c[0]), c[0]), seg[k..], c[1..], c[0].length)
  }

  lemma ChainHead(buf: string, d: seq<Entity>, offset: nat, prev: Option<string>)
    requires d != []
    ensures var s := ProcessEntity(buf, d[0], offset, prev);
            ProcessChain(buf, d, offset, prev).text == ProcessChain(s.text, d[1..], s.offset, Some(s.wrapped)).text
  {
  }

  lemma WrapOutwardHead(m: string, rest: string, e: Entity, d: seq<Entity>, inner: nat)
    requires d != [] && d[0] == e && inner <= e.length <= inner + |rest|
    ensures var k := e.length - inner;
            WrapOutward(m, rest, d, inner)
              == WrapOutward(Markup(m + EscapeMarkdownTextByEntity(rest[..k], e), e), rest[k..], d[1..], e.length)
  {
  }

  /** `buf` read as the text before `o`, then `m`, then the rest. */
  lemma Around(buf: string, o: nat, m: string)
    requires o + |m| <= |buf| && buf[o..o + |m|] == m
    ensures buf == buf[..o] + m + buf[o + |m|..]
  {
  }

  lemma SlicesOfThree(pre: string, w: string, tail: string)
    ensures var t := pre + w + tail;
            && |t| == |pre| + |w| + |tail|
            && t[..|pre|] == pre && t[|pre|..|pre| + |w|] == w && t[|pre| + |w|..] == tail
  {
  }

  /** processEntity on an enclosing member whose inner members left `m` at
      its offset: the text around the extract stays, and the extract becomes
      the markup of `m` followed by the escaped remainder. */
  lemma EnclosingAt(buf: string, o: nat, e: Entity, m: string, inner: nat, off: nat)
    requires e.offset == o && off == |m| - inner
    requires inner <= |m| && inner <= e.length && o + |m| + (e.length - inner) <= |buf|
    requires buf[o..o + |m|] == m
    ensures var k := e.length - inner;
            var s := ProcessEntity(buf, e, off, Some(m));
            && s.wrapped == Markup(m + EscapeMarkdownTextByEntity(buf[o + |m|..][..k], e), e)
            && s.offset == |s.wrapped| - e.length
            && e.length <= |s.wrapped|
            && o + |s.wrapped| <= |s.text|
            && |s.text| - (o + |s.wrapped|) == |buf| - (o + |m|) - k
            && s.text[..o] == buf[..o] && s.text[o..o + |s.wrapped|] == s.wrapped
            && s.text[o + |s.wrapped|..] == buf[o + |m|..][k..]
  {
    ProcessEntityInBounds(buf, e, off, Some(m));
    ExtractSlices(buf, o, m, e.length - inner, e.offset + e.length + off);
    EnclosingWrapped(buf, e, off, m);
    EnclosingLonger(m, buf[o + |m|..][..e.length - inner], e, inner);
    SlicesOfThree(buf[..o], ProcessEntity(buf, e, off, Some(m)).wrapped, buf[e.offset + e.length + off..]);
  }

  lemma ExtractSlices(buf: string, o: nat, m: string, k: nat, j: nat)
    requires j == o + |m| + k <= |buf| && buf[o..o + |m|] == m
    ensures |buf[o..j]| >= |m| && buf[o..j][..|m|] == m
    ensures buf[o..j][|m|..] == buf[o + |m|..][..k]
    ensures buf[j..] == buf[o + |m|..][k..]
  {
    assert buf[o..j][..|m|] == buf[o..o + |m|];
  }

  lemma EnclosingLonger(m: string, x: string, e: Entity, inner: nat)
    requires inner <= |m| && inner + |x| == e.length
    ensures e.length <= |Markup(m + EscapeMarkdownTextByEntity(x, e), e)|
  {
  }

  /** One enclosing member `e`, the head of `d`, in buffer form: the chain
      continues from the text processEntity leaves, which keeps the text
      before `o`, holds the new rendering at `o`, and whose reference
      rendering takes the same step. */
  lemma TailStep(buf: string, o: nat, m: string, e: Entity, d: seq<Entity>, inner: nat, off: nat, n: nat)
    requires d != [] && d[0] == e
    requires inner <= |m| && off == |m| - inner && o + |m| <= |buf| && buf[o..o + |m|] == m
    requires n == |buf| - (o + |m|) && e.offset == o && inner <= e.length <= inner + n
    ensures var s := ProcessEntity(buf, e, off, Some(m));
            && ProcessChain(buf, d, off, Some(m)).text == ProcessChain(s.text, d[1..], s.offset, Some(s.wrapped)).text
            && s.text[..o] == buf[..o]
            && WrapOutward(m, buf[o + |m|..], d, inner)
                 == WrapOutward(s.wrapped, s.text[o + |s.wrapped|..], d[1..], e.length)
            && e.length <= |s.wrapped| && s.offset == |s.wrapped| - e.length
            && o + |s.wrapped| <= |s.text| && s.text[o..o + |s.wrapped|] == s.wrapped
            && n - (e.length - inner) == |s.text| - (o + |s.wrapped|)
  {
    ChainHead(buf, d, off, Some(m));
    EnclosingAt(buf, o, e, m, inner, off);
    WrapStep(buf, o, m, e, d, inner, off);
  }

  lemma WrapStep(buf: string, o: nat, m: string, e: Entity, d: seq<Entity>, inner: nat, off: nat)
    requires d != [] && d[0] == e
    requires inner <= |m| && off == |m| - inner && o + |m| <= |buf| && buf[o..o + |m|] == m
    requires e.offset == o && inner <= e.length <= inner + (|buf| - (o + |m|))
    ensures var s := ProcessEntity(buf, e, off, Some(m));
            WrapOutward(m, buf[o + |m|..], d, inner)
              == WrapOutward(s.wrapped, s.text[o + |s.wrapped|..], d[1..], e.length)
  {
    EnclosingAt(buf, o, e, m, inner, off);
    WrapOutwardHead(m, buf[o + |m|..], e, d, inner);
  }

  lemma TailDone(buf: string, o: nat, m: string, d: seq<Entity>, inner: nat, off: nat)
    requires o + |m| <= |buf| && buf[o..o + |m|] == m && d == []
    ensures var r := WrapOutward(m, buf[o + |m|..], d, inner);
            ProcessChain(buf, d, off, Some(m)).text == buf[..o] + r.0 + r.1
  {
    Around(buf, o, m);
  }

  /** The enclosing members of a chain, processed one by one after the
      members inside have left `m` at offset `o` in place of their `inner`
      characters (the running offset `off` being the growth of `m`), yield
      the reference rendering of the chain between the untouched text before
      `o` and the text after the outermost extract. */
  lemma {:induction false} ChainTail(buf: string, o: nat, m: string, d: seq<Entity>, inner: nat, off: nat, n: nat)
    requires inner <= |m| && off == |m| - inner && o + |m| <= |buf| && buf[o..o + |m|] == m
    requires n == |buf| - (o + |m|) && Fits(d, o, inner, n)
    ensures var r := WrapOutward(m, buf[o + |m|..], d, inner);
            ProcessChain(buf, d, off, Some(m)).text == buf[..o] + r.0 + r.1
    decreases |d|, 1
  {
    if d == [] {
      TailDone(buf, o, m, d, inner, off);
    } else {
      TailStep(buf, o, m, d[0], d, inner, off, n);
      var s := ProcessEntity(buf, d[0], off, Some(m));
      TailContinue(buf, o, m, d, inner, off, n, s.text, s.offset, s.wrapped);
    }
  }

  /** The rest of ChainTail once the head member has left `w` in `text`
      with running offset `off2`. */
  lemma {:induction false} TailContinue(buf: string, o: nat, m: string, d: seq<Entity>, inner: nat, off: nat, n: nat,
                                        text: string, off2: nat, w: string)
    requires d != [] && o + |m| <= |buf| && Fits(d, o, inner, n)
    requires d[0].length <= |w| && off2 == |w| - d[0].length && o + |w| <= |text| && text[o..o + |w|] == w
    requires ProcessChain(buf, d, off, Some(m)).text == ProcessChain(text, d[1..], off2, Some(w)).text
    requires text[..o] == buf[..o]
    requires WrapOutward(m, buf[o + |m|..], d, inner) == WrapOutward(w, text[o + |w|..], d[1..], d[0].length)
    requires n - (d[0].length - inner) == |text| - (o + |w|)
    ensures var r := WrapOutward(m, buf[o + |m|..], d, inner);
            ProcessChain(buf, d, off, Some(m)).text == buf[..o] + r.0 + r.1
    decreases |d|, 0
  {
    ChainTail(text, o, w, d[1..], d[0].length, off2, n - (d[0].length - inner));
  }

  /** A nested run at offset `o` whose outermost member fits `n` characters
      past `inner` satisfies Fits. */
  lemma {:induction false} NestedFits(d: seq<Entity>, o: nat, inner: nat, n: nat)
    requires forall i | 0 <= i < |d| :: d[i].offset == o
    requires forall i, j | 0 <= i < j < |d| :: d[i].length <= d[j].length
    requires d != [] ==> inner <= d[0].length && d[|d| - 1].length <= inner + n
    ensures Fits(d, o, inner, n)
    decreases |d|
  {
    if d != [] {
      var t := d[1..];
      assert forall i | 0 <= i < |t| :: t[i] == d[i + 1];
      NestedFits(t, o, d[0].length, n - (d[0].length - inner));
    }
  }

  lemma RenderChainHead(seg: string, e: Entity, c: seq<Entity>)
    requires c != [] && c[0] == e && e.length <= |seg|
    ensures RenderChain(seg, c)
              == WrapOutward(Markup(EscapeMarkdownTextByEntity(seg[..e.length], e), e), seg[e.length..], c[1..], e.length)
  {
  }

  /** The innermost member's rendering, read from the text processEntity
      leaves. */
  lemma StartRender(buf: string, e: Entity, c: seq<Entity>)
    requires c != [] && c[0] == e && e.offset + e.length <= |buf|
    ensures var s := ProcessEntity(buf, e, 0, None);
            && e.offset + |s.wrapped| <= |s.text|
            && RenderChain(buf[e.offset..], c) == WrapOutward(s.wrapped, s.text[e.offset + |s.wrapped|..], c[1..], e.length)
  {
    LoneStep(buf, e);
    SliceAround(buf, e.offset, e.length);
    RenderChainHead(buf[e.offset..], e, c);
    SlicesOfThree(buf[..e.offset], ProcessEntity(buf, e, 0, None).wrapped, buf[e.offset + e.length..]);
  }

  /** The innermost member of a chain in buffer form: the chain continues
      from the text processEntity leaves, laid out as ChainTail needs. */
  lemma StartStep(buf: string, e: Entity, c: seq<Entity>, n: nat)
    requires c != [] && c[0] == e && e.offset + e.length <= |buf| && n == |buf| - (e.offset + e.length)
    ensures var s := ProcessEntity(buf, e, 0, None);
            && ProcessChain(buf, c, 0, None).text == ProcessChain(s.text, c[1..], s.offset, Some(s.wrapped)).text
            && s.text[..e.offset] == buf[..e.offset]
            && RenderChain(buf[e.offset..], c) == WrapOutward(s.wrapped, s.text[e.offset + |s.wrapped|..], c[1..], e.length)
            && e.length <= |s.wrapped| && s.offset == |s.wrapped| - e.length
            && e.offset + |s.wrapped| <= |s.text| && s.text[e.offset..e.offset + |s.wrapped|] == s.wrapped
            && n == |s.text| - (e.offset + |s.wrapped|)
  {
    ChainHead(buf, c, 0, None);
    ProcessEntityInBounds(buf, e, 0, None);
    LoneStep(buf, e);
    StartRender(buf, e, c);
    SlicesOfThree(buf[..e.offset], ProcessEntity(buf, e, 0, None).wrapped, buf[e.offset + e.length..]);
  }

  /** A group processed innermost first, all members at one offset and the
      outermost inside the text, replaces its outermost extract by the
      reference rendering of the nest and leaves the text around it as it
      was. */
  lemma ChainRenders(buf: string, c: seq<Entity>)
    requires c != [] && Nested(c) && c[0].offset + c[|c| - 1].length <= |buf|
    ensures var r := RenderChain(buf[c[0].offset..], c);
            ProcessChain(buf, c, 0, None).text == buf[..c[0].offset] + r.0 + r.1
  {
    var n := |buf| - (c[0].offset + c[0].length);
    var d := c[1..];
    assert forall i | 0 <= i < |d| :: d[i] == c[i + 1];
    NestedFits(d, c[0].offset, c[0].length, n);
    StartStep(buf, c[0], c, n);
    ChainTail(ProcessEntity(buf, c[0], 0, None).text, c[0].offset, ProcessEntity(buf, c[0], 0, None).wrapped,
              c[1..], c[0].length, ProcessEntity(buf, c[0], 0, None).offset, n);
  }

  lemma {:induction false} WrapOutwardAppend(m: string, rest: string, x: string, d: seq<Entity>, o: nat, inner: nat)
    requires Fits(d, o, inner, |rest|)
    ensures WrapOutward(m, rest + x, d, inner)
              == (WrapOutward(m, rest, d, inner).0, WrapOutward(m, rest, d, inner).1 + x)
    decreases |d|
  {
    if d != [] {
      var e := d[0];
      var k := e.length - inner;
      assert (rest + x)[..k] == rest[..k];
      assert (rest + x)[k..] == rest[k..] + x;
      WrapOutwardAppend(Markup(m + EscapeMarkdownTextByEntity(rest[..k], e), e), rest[k..], x, d[1..], o, e.length);
    }
  }

  /** Text appended after a nest's segment stays after its rendering. */
  lemma RenderChainAppend(seg: string, x: string, c: seq<Entity>)
    requires c != [] && Nested(c) && c[|c| - 1].length <= |seg|
    ensures RenderChain(seg + x, c) == (RenderChain(seg, c).0, RenderChain(seg, c).1 + x)
  {
    var k := c[0].length;
    var d := c[1..];
    assert forall i | 0 <= i < |d| :: d[i] == c[i + 1];
    NestedFits(d, c[0].offset, k, |seg| - k);
    assert (seg + x)[..k] == seg[..k];
    assert (seg + x)[k..] == seg[k..] + x;
    WrapOutwardAppend(Markup(EscapeMarkdownTextByEntity(seg[..k], c[0]), c[0]), seg[k..], x, d, c[0].offset, k);
  }

  /** Where a group's outermost (first-listed) member ends. */
  function Extent(g: seq<Entity>): nat
  {
    if g == [] then 0 else g[0].offset + g[0].length
  }

  /** Groups laid out in the text from the highest offset down, each nested
      inside its first-listed member, which lies inside the text and ends
      at or before the offset of every group before it. */
  predicate Laid(t: string, gs: seq<seq<Entity>>)
  {
    && (forall i | 0 <= i < |gs| :: gs[i] != [] && Nested(Chain(gs[i])) && Extent(gs[i]) <= |t|)
    && (forall i, j | 0 <= i < j < |gs| && gs[i] != [] :: Extent(gs[j]) <= Offset(gs[i]))
  }

  /** Reference rendering of groups that do not overlap: the text below the
      first group's offset rendered with the remaining groups, then the
      first group's nest rendering and the text after it. */
  function RenderGroups(t: string, gs: seq<seq<Entity>>): string
    requires forall i | 0 <= i < |gs| :: gs[i] != []
    decreases |gs|
  {
    if gs == [] then t
    else
      var o := Min(Offset(gs[0]), |t|);
      var r := RenderChain(t[o..], Chain(gs[0]));
      RenderGroups(t[..o], gs[1..]) + r.0 + r.1
  }

  lemma RenderGroupsHead(t: string, gs: seq<seq<Entity>>, o: nat, a: string, b: string)
    requires forall i | 0 <= i < |gs| :: gs[i] != []
    requires gs != [] && o == Offset(gs[0]) <= |t|
    requires RenderChain(t[o..], Chain(gs[0])) == (a, b)
    ensures RenderGroups(t, gs) == RenderGroups(t[..o], gs[1..]) + a + b
  {
  }

  /** The first group of laid-out groups fits the text from its offset. */
  lemma LaidHead(t: string, gs: seq<seq<Entity>>)
    requires Laid(t, gs) && gs != []
    ensures Offset(gs[0]) <= |t|
    ensures Chain(gs[0]) != [] && Nested(Chain(gs[0]))
    ensures Chain(gs[0])[0].offset == Offset(gs[0])
    ensures Chain(gs[0])[|Chain(gs[0])| - 1].length <= |t| - Offset(gs[0])
    ensures Laid(t[..Offset(gs[0])], gs[1..])
  {
    var g := gs[0];
    ChainOrder(g);
    var rest := gs[1..];
    assert forall i | 0 <= i < |rest| :: rest[i] == gs[i + 1];
  }

  /** The rendering of laid-out groups depends only on the text they cover:
      text appended after it is passed through. */
  lemma RenderPrefix(p: string, x: string, gs: seq<seq<Entity>>)
    requires Laid(p, gs)
    ensures RenderGroups(p + x, gs) == RenderGroups(p, gs) + x
  {
    if gs != [] {
      var o := Offset(gs[0]);
      LaidHead(p, gs);
      RenderChainAppend(p[o..], x, Chain(gs[0]));
      PrefixStep(p, x, gs, o, RenderChain(p[o..], Chain(gs[0])).0, RenderChain(p[o..], Chain(gs[0])).1);
    }
  }

  lemma PrefixStep(p: string, x: string, gs: seq<seq<Entity>>, o: nat, a: string, b: string)
    requires forall i | 0 <= i < |gs| :: gs[i] != []
    requires gs != [] && o == Offset(gs[0]) <= |p|
    requires RenderChain(p[o..], Chain(gs[0])) == (a, b)
    requires RenderChain(p[o..] + x, Chain(gs[0])) == (a, b + x)
    ensures RenderGroups(p + x, gs) == RenderGroups(p, gs) + x
  {
    AppendSlices(p, x, o);
    RenderGroupsHead(p + x, gs, o, a, b + x);
    RenderGroupsHead(p, gs, o, a, b);
    ConcatAssoc(RenderGroups(p[..o], gs[1..]), a, b, x);
  }

  /** Solver step: associativity, kept out of PrefixStep's context. */
  lemma ConcatAssoc(u: string, a: string, b: string, x: string)
    ensures u + a + (b + x) == u + a + b + x
  {
  }

  lemma AppendSlices(p: string, x: string, o: nat)
    requires o <= |p|
    ensures (p + x)[..o] == p[..o] && (p + x)[o..] == p[o..] + x
  {
  }

  lemma LaidExtend(p: string, x: string, gs: seq<seq<Entity>>)
    requires Laid(p, gs)
    ensures Laid(p + x, gs)
  {
  }

  /** The first group's step of both sides, once its chain is known to
      render as `(a, b)`. */
  lemma ComposeHead(t: string, gs: seq<seq<Entity>>, o: nat, a: string, b: string)
    requires forall i | 0 <= i < |gs| :: gs[i] != []
    requires gs != [] && o == Offset(gs[0]) <= |t|
    requires RenderChain(t[o..], Chain(gs[0])) == (a, b)
    requires ProcessChain(t, Chain(gs[0]), 0, None).text == t[..o] + a + b
    ensures ComposeGroups(t, gs).text == ComposeGroups(t[..o] + (a + b), gs[1..]).text
    ensures RenderGroups(t, gs) == RenderGroups(t[..o], gs[1..]) + (a + b)
  {
    RenderGroupsHead(t, gs, o, a, b);
    ConcatAssoc3(t[..o], a, b);
    ConcatAssoc3(RenderGroups(t[..o], gs[1..]), a, b);
  }

  /** Solver step: associativity, kept out of ComposeHead's context. */
  lemma ConcatAssoc3(u: string, a: string, b: string)
    ensures u + a + b == u + (a + b)
  {
  }

  /** The groups in turn, each from the text the previous one left, give
      the reference rendering of the laid-out groups. */
  lemma {:induction false} ComposeRenders(t: string, gs: seq<seq<Entity>>)
    requires Laid(t, gs)
    ensures ComposeGroups(t, gs).text == RenderGroups(t, gs)
    decreases |gs|
  {
    if gs != [] {
      var o := Offset(gs[0]);
      LaidHead(t, gs);
      ChainRenders(t, Chain(gs[0]));
      ComposeHead(t, gs, o, RenderChain(t[o..], Chain(gs[0])).0, RenderChain(t[o..], Chain(gs[0])).1);
      LaidExtend(t[..o], RenderChain(t[o..], Chain(gs[0])).0 + RenderChain(t[o..], Chain(gs[0])).1, gs[1..]);
      ComposeRenders(t[..o] + (RenderChain(t[o..], Chain(gs[0])).0 + RenderChain(t[o..], Chain(gs[0])).1), gs[1..]);
      RenderPrefix(t[..o], RenderChain(t[o..], Chain(gs[0])).0 + RenderChain(t[o..], Chain(gs[0])).1, gs[1..]);
    }
  }

  /** The compositor renders entities that nest only at a shared offset,
      listed outer-first there, and otherwise do not overlap: every group
      of the text becomes its reference nest rendering, in place. */
  lemma NestedMarkup(text: string, es: seq<Entity>)
    requires OuterFirst(es)
    requires forall e | e in es :: e.offset + e.length <= |text|
    requires forall e, e' | e in es && e' in es && e.offset < e'.offset :: e.offset + e.length <= e'.offset
    ensures Compose(text, es).text == RenderGroups(text, Groups(es))
  {
    var gs := Groups(es);
    GroupsDescend(es);
    GroupsAreBuckets(es);
    forall i | 0 <= i < |gs| ensures Nested(Chain(gs[i])) && Extent(gs[i]) <= |text| {
      ChainNested(es, gs[i]);
      assert gs[i][0] in gs[i];
    }
    forall i, j | 0 <= i < j < |gs| ensures Extent(gs[j]) <= Offset(gs[i]) {
      assert gs[j][0] in gs[j] && gs[i][0] in gs[i];
    }
    ComposeRenders(text, gs);
  }
}
