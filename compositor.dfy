/** The markup compositor (fillMarkdownEntitiesMarkup and its processEntity
    closure) and the specification it is proved against. */
module Compositor {
  import opened Utils
  import opened Escaping
  import opened Entities
  import opened Grouping
  import Residual

  /** What one call of processEntity leaves behind: the rewritten text, the
      running length delta `offset` and the wrapped text it produced. */
  datatype Step = Step(text: string, offset: nat, wrapped: string)

  /** A working text together with the records pushed so far. */
  datatype Composite = Composite(text: string, records: seq<Record>)

  /** processEntity(buf, e) with the closure's captured `offset` (how much
      longer the group's region has become) and `prevNestedWrappedText`.
      When the extract `buf[e.offset .. e.offset + e.length + offset]` lies
      inside the text, the extract is replaced by the wrapped text, the
      delta becomes the wrapped text's growth over `e.length`, and the
      wrapped text is the markup of the previous wrapped text followed by
      the escaped remainder of the extract (or of the whole escaped extract
      for the innermost entity). */
  function ProcessEntity(buf: string, e: Entity, offset: nat, prev: Option<string>): (r: Step)
    ensures r.offset >= offset
    ensures |r.text| >= |buf|
  {
    var entityText := Substr(buf, e.offset, e.length + offset);
    var escapedText := EscapeEntityText(entityText, e, prev);
    var wrapped := Markup(escapedText, e);
    // accumOffset: the growth by escaping, then by wrapping
    var accumOffset := (|escapedText| - |entityText|) + (|wrapped| - |escapedText|);
    Step(RewriteAt(buf, e.offset, wrapped, e.length + offset), offset + accumOffset, wrapped)
  }

  /** The escaping half of processEntity: the innermost entity escapes its
      whole extract; an enclosing one escapes what follows the previous
      wrapped text's length and splices it back. */
  function EscapeEntityText(entityText: string, e: Entity, prev: Option<string>): (r: string)
    ensures |r| >= |entityText|
  {
    if prev.None? then
      EscapeMarkdownTextByEntity(entityText, e)
    else
      var p := |prev.value|;
      var diffEntityText := Substr(entityText, p, |entityText| - p);
      var escapedDiffEntityText := EscapeMarkdownTextByEntity(diffEntityText, e);
      RewriteAt(entityText, p, escapedDiffEntityText, |diffEntityText|)
  }

  /** processEntity leaves the text in front of the entity as it was. */
  lemma ProcessEntityKeepsPrefix(buf: string, e: Entity, offset: nat, prev: Option<string>)
    ensures var r := ProcessEntity(buf, e, offset, prev);
      |r.text| >= Min(e.offset, |buf|) && r.text[..Min(e.offset, |buf|)] == buf[..Min(e.offset, |buf|)]
  {
  }

  /** The wrapped text of an italic or underline entity is guarded. */
  lemma ProcessEntityGuarded(buf: string, e: Entity, offset: nat, prev: Option<string>)
    ensures var r := ProcessEntity(buf, e, offset, prev);
      e.kind == Italic || e.kind == Underline ==>
        |r.wrapped| >= 2 && r.wrapped[0] == '\r' && r.wrapped[|r.wrapped| - 1] == '\r'
  {
    MarkupGuarded(EscapeEntityText(Substr(buf, e.offset, e.length + offset), e, prev), e);
  }

  /** Within the text, processEntity replaces the extract
      `buf[e.offset .. e.offset + e.length + offset]` by the wrapped text and
      leaves the delta at the wrapped text's growth over `e.length`. */
  lemma ProcessEntityInBounds(buf: string, e: Entity, offset: nat, prev: Option<string>)
    requires e.offset + e.length + offset <= |buf|
    ensures var r := ProcessEntity(buf, e, offset, prev);
            r.offset + e.length == |r.wrapped|
            && r.text == buf[..e.offset] + r.wrapped + buf[e.offset + e.length + offset..]
  {
    ProcessEntityDelta(buf, e, offset, prev);
    ProcessEntityText(buf, e, offset, prev);
  }

  lemma ProcessEntityDelta(buf: string, e: Entity, offset: nat, prev: Option<string>)
    requires e.offset + e.length + offset <= |buf|
    ensures var r := ProcessEntity(buf, e, offset, prev);
            r.offset + e.length == |r.wrapped|
  {
    assert |Substr(buf, e.offset, e.length + offset)| == e.length + offset;
  }

  lemma ProcessEntityText(buf: string, e: Entity, offset: nat, prev: Option<string>)
    requires e.offset + e.length + offset <= |buf|
    ensures var r := ProcessEntity(buf, e, offset, prev);
            r.text == buf[..e.offset] + r.wrapped + buf[e.offset + e.length + offset..]
  {
    assert e.offset + (e.length + offset) == e.offset + e.length + offset;
  }

  /** The wrapped text is the markup of the escaped extract. */
  lemma WrappedOf(buf: string, e: Entity, offset: nat, prev: Option<string>)
    ensures ProcessEntity(buf, e, offset, prev).wrapped
              == Markup(EscapeEntityText(Substr(buf, e.offset, e.length + offset), e, prev), e)
  {
  }

  lemma SubstrWithin(t: string, start: nat, len: nat, j: nat)
    requires j == start + len && j <= |t|
    ensures Substr(t, start, len) == t[start..j]
  {
  }

  /** The innermost entity of a group has its whole extract escaped, then
      wrapped. */
  lemma InnermostWrapped(buf: string, e: Entity, offset: nat)
    requires e.offset + e.length + offset <= |buf|
    ensures ProcessEntity(buf, e, offset, None).wrapped
              == Markup(EscapeMarkdownTextByEntity(buf[e.offset..e.offset + e.length + offset], e), e)
  {
    WrappedOf(buf, e, offset, None);
    SubstrWithin(buf, e.offset, e.length + offset, e.offset + e.length + offset);
    InnermostEscape(buf[e.offset..e.offset + e.length + offset], e);
  }

  /** An enclosing entity whose extract starts with the previous wrapped
      text `m` has only the remainder escaped: the previous markup is kept
      as it is inside the new one. */
  lemma EnclosingWrapped(buf: string, e: Entity, offset: nat, m: string)
    requires e.offset + e.length + offset <= |buf|
    requires var x := buf[e.offset..e.offset + e.length + offset];
             |m| <= |x| && x[..|m|] == m
    ensures var x := buf[e.offset..e.offset + e.length + offset];
            ProcessEntity(buf, e, offset, Some(m)).wrapped
              == Markup(m + EscapeMarkdownTextByEntity(x[|m|..], e), e)
  {
    WrappedOf(buf, e, offset, Some(m));
    SubstrWithin(buf, e.offset, e.length + offset, e.offset + e.length + offset);
    EnclosedEscape(buf[e.offset..e.offset + e.length + offset], e, m);
  }

  /** The innermost entity's extract is escaped as a whole. */
  lemma InnermostEscape(x: string, e: Entity)
    ensures EscapeEntityText(x, e, None) == EscapeMarkdownTextByEntity(x, e)
  {
  }

  /** An extract that starts with the previous wrapped text keeps it and
      escapes only what follows. */
  lemma EnclosedEscape(x: string, e: Entity, m: string)
    requires |m| <= |x| && x[..|m|] == m
    ensures EscapeEntityText(x, e, Some(m)) == m + EscapeMarkdownTextByEntity(x[|m|..], e)
  {
    assert Substr(x, |m|, |x| - |m|) == x[|m|..];
    RewriteTail(x, m, EscapeMarkdownTextByEntity(x[|m|..], e));
  }

  /** Rewriting everything after a prefix `m` of `x` by `y` gives `m + y`. */
  lemma RewriteTail(x: string, m: string, y: string)
    requires |m| <= |x| && x[..|m|] == m
    ensures RewriteAt(x, |m|, y, |x| - |m|) == m + y
  {
    assert x[|m| + (|x| - |m|)..] == [];
  }

  /** One group's processing: its members in processing order, the delta
      and the previous wrapped text carried from call to call. */
  function ProcessChain(buf: string, chain: seq<Entity>, offset: nat, prev: Option<string>): (r: Composite)
    ensures |r.records| == |chain|
    ensures |r.text| >= |buf|
    decreases |chain|
  {
    if chain == [] then Composite(buf, [])
    else
      var s := ProcessEntity(buf, chain[0], offset, prev);
      var rest := ProcessChain(s.text, chain[1..], s.offset, Some(s.wrapped));
      Composite(rest.text, [Record(s.wrapped, chain[0])] + rest.records)
  }

  /** The groups in turn, each starting from the text the previous one left,
      with a fresh delta and no previous wrapped text. */
  function ComposeGroups(t: string, gs: seq<seq<Entity>>): (r: Composite)
    ensures |r.text| >= |t|
    decreases |gs|
  {
    if gs == [] then Composite(t, [])
    else
      var c := ProcessChain(t, Chain(gs[0]), 0, None);
      var rest := ComposeGroups(c.text, gs[1..]);
      Composite(rest.text, c.records + rest.records)
  }

  /** The text and the records before the residual escaping. */
  function Compose(text: string, es: seq<Entity>): (r: Composite)
    ensures |r.text| >= |text|
  {
    ComposeGroups(text, Groups(es))
  }

  /** fillMarkdownEntitiesMarkup as a function of its inputs. */
  function FillMarkup(text: string, es: seq<Entity>): (r: string)
    ensures |r| >= |text|
  {
    var c := Compose(text, es);
    Residual.ResidualEscape(c.text, c.records)
  }

  lemma ProcessChainAt(buf: string, chain: seq<Entity>, i: nat, offset: nat, prev: Option<string>)
    requires i < |chain|
    ensures ProcessChain(buf, chain[i..], offset, prev) ==
      var s := ProcessEntity(buf, chain[i], offset, prev);
      var rest := ProcessChain(s.text, chain[i + 1..], s.offset, Some(s.wrapped));
      Composite(rest.text, [Record(s.wrapped, chain[i])] + rest.records)
  {
    assert chain[i..][0] == chain[i] && chain[i..][1..] == chain[i + 1..];
  }

  lemma ComposeGroupsAt(t: string, gs: seq<seq<Entity>>, i: nat)
    requires i < |gs|
    ensures ComposeGroups(t, gs[i..]) ==
      var c := ProcessChain(t, Chain(gs[i]), 0, None);
      var rest := ComposeGroups(c.text, gs[i + 1..]);
      Composite(rest.text, c.records + rest.records)
  {
    assert gs[i..][0] == gs[i] && gs[i..][1..] == gs[i + 1..];
  }

  /** processEntity on the innermost member of a group, at the start of
      `rest`: its extract is escaped and wrapped in place. */
  lemma StepInnermost(pre: string, rest: string, e: Entity)
    requires e.offset == |pre| && e.length <= |rest|
    ensures var s := ProcessEntity(pre + rest, e, 0, None);
            && s.wrapped == Markup(EscapeMarkdownTextByEntity(rest[..e.length], e), e)
            && s.text == pre + s.wrapped + rest[e.length..]
            && s.offset == |s.wrapped| - e.length
  {
    var buf := pre + rest;
    var start: nat := 0;
    var x := buf[e.offset..e.offset + e.length + start];
    SplitSlices(pre, rest, e.length);
    assert x == rest[..e.length];
    ProcessEntityInBounds(buf, e, start, None);
    InnermostWrapped(buf, e, start);
  }

  lemma SplitSlices(pre: string, rest: string, d: nat)
    requires d <= |rest|
    ensures var buf := pre + rest;
            && buf[..|pre|] == pre
            && buf[|pre|..|pre| + d] == rest[..d]
            && buf[|pre| + d..] == rest[d..]
  {
  }

  /** The entities the records were made for, in push order. */
  function RecordEntities(recs: seq<Record>): (r: seq<Entity>)
    ensures |r| == |recs|
  {
    if recs == [] then [] else [recs[0].entity] + RecordEntities(recs[1..])
  }

  lemma {:induction false} RecordEntitiesAppend(a: seq<Record>, b: seq<Record>)
    ensures RecordEntities(a + b) == RecordEntities(a) + RecordEntities(b)
    decreases |a|
  {
    if a != [] {
      assert (a + b)[0] == a[0] && (a + b)[1..] == a[1..] + b;
      RecordEntitiesAppend(a[1..], b);
      assert RecordEntities(a + b) == [a[0].entity] + RecordEntities(a[1..] + b);
    } else {
      assert a + b == b;
    }
  }

  /** An italic or underline record carries the carriage-return guard on
      both sides of its wrapped text. */
  predicate Guarded(rec: Record)
  {
    rec.entity.kind == Italic || rec.entity.kind == Underline ==>
      |rec.wrapped| >= 2 && rec.wrapped[0] == '\r' && rec.wrapped[|rec.wrapped| - 1] == '\r'
  }

  /** Processing a chain pushes one record per member, in chain order, and
      every italic or underline record is guarded. */
  lemma {:induction false} ChainRecords(buf: string, chain: seq<Entity>, offset: nat, prev: Option<string>)
    ensures RecordEntities(ProcessChain(buf, chain, offset, prev).records) == chain
    ensures forall rec | rec in ProcessChain(buf, chain, offset, prev).records :: Guarded(rec)
    decreases |chain|
  {
    if chain != [] {
      var s := ProcessEntity(buf, chain[0], offset, prev);
      var rest := ProcessChain(s.text, chain[1..], s.offset, Some(s.wrapped));
      ChainRecords(s.text, chain[1..], s.offset, Some(s.wrapped));
      var head := Record(s.wrapped, chain[0]);
      ProcessEntityGuarded(buf, chain[0], offset, prev);
      RecordEntitiesAppend([head], rest.records);
      assert RecordEntities([head]) == [chain[0]];
      assert chain == [chain[0]] + chain[1..];
    }
  }

  /** Compositing pushes the records of the groups' chains one group after
      the other, every italic or underline record guarded. */
  lemma {:induction false} ComposeRecords(t: string, gs: seq<seq<Entity>>)
    ensures RecordEntities(ComposeGroups(t, gs).records) == Flatten(Chains(gs))
    ensures forall rec | rec in ComposeGroups(t, gs).records :: Guarded(rec)
    decreases |gs|
  {
    if gs != [] {
      var c := ProcessChain(t, Chain(gs[0]), 0, None);
      var rest := ComposeGroups(c.text, gs[1..]);
      var start: nat := 0;
      ChainRecords(t, Chain(gs[0]), start, None);
      ComposeRecords(c.text, gs[1..]);
      RecordEntitiesAppend(c.records, rest.records);
      assert Chains(gs) == [Chain(gs[0])] + Chains(gs[1..]);
      assert Chains(gs)[0] == Chain(gs[0]) && Chains(gs)[1..] == Chains(gs[1..]);
    }
  }

  /** Every entity gets exactly one record: the records' entities are the
      input entities, each as often as it occurs, and every italic or
      underline record is guarded by carriage returns. */
  lemma OneRecordPerEntity(text: string, es: seq<Entity>)
    ensures |Compose(text, es).records| == |es|
    ensures multiset(RecordEntities(Compose(text, es).records)) == multiset(es)
    ensures forall rec | rec in Compose(text, es).records :: Guarded(rec)
  {
    ComposeRecords(text, Groups(es));
    EveryEntityProcessedOnce(es);
  }

  /** A chain whose members all start at or after `p` leaves the text
      before `p` as it was. */
  lemma {:induction false} ChainKeepsPrefix(buf: string, chain: seq<Entity>, offset: nat, prev: Option<string>, p: nat)
    requires p <= |buf|
    requires forall e | e in chain :: p <= e.offset
    ensures |ProcessChain(buf, chain, offset, prev).text| >= p
    ensures ProcessChain(buf, chain, offset, prev).text[..p] == buf[..p]
    decreases |chain|
  {
    if chain != [] {
      var s := ProcessEntity(buf, chain[0], offset, prev);
      assert chain[0] in chain;
      var q := Min(chain[0].offset, |buf|);
      ProcessEntityKeepsPrefix(buf, chain[0], offset, prev);
      PrefixOfPrefix(s.text, buf, q, p);
      forall e | e in chain[1..] ensures p <= e.offset {
        assert e in chain;
      }
      ChainKeepsPrefix(s.text, chain[1..], s.offset, Some(s.wrapped), p);
    }
  }

  lemma PrefixOfPrefix(a: string, b: string, q: nat, p: nat)
    requires p <= q <= |a| && q <= |b| && a[..q] == b[..q]
    ensures a[..p] == b[..p]
  {
    assert a[..p] == a[..q][..p];
    assert b[..p] == b[..q][..p];
  }

  /** Groups taken at offsets at or after `p` leave the text before `p` as
      it was: processing from the highest offset down never moves the text
      in front of a group still to be processed. */
  lemma {:induction false} ComposeKeepsPrefix(t: string, gs: seq<seq<Entity>>, p: nat)
    requires p <= |t|
    requires forall g, e | g in gs && e in g :: p <= e.offset
    ensures |ComposeGroups(t, gs).text| >= p
    ensures ComposeGroups(t, gs).text[..p] == t[..p]
    decreases |gs|
  {
    if gs != [] {
      var g := gs[0];
      assert g in gs;
      var start: nat := 0;
      if g != [] {
        ChainMultiset(g);
        forall e | e in Chain(g) ensures p <= e.offset {
          assert e in multiset(Chain(g));
          assert e in g;
        }
      } else {
        assert Chain(g) == [];
      }
      ChainKeepsPrefix(t, Chain(g), start, None, p);
      var c := ProcessChain(t, Chain(g), start, None);
      forall h: seq<Entity>, e: Entity | h in gs[1..] && e in h ensures p <= e.offset {
        assert h in gs;
      }
      ComposeKeepsPrefix(c.text, gs[1..], p);
    }
  }

  /** Before each group is processed, the text in front of the previous
      (higher) group's offset is still the input text. */
  lemma ComposeLeavesLowerText(text: string, es: seq<Entity>, i: nat)
    requires 0 < i < |Groups(es)|
    requires Offset(Groups(es)[i - 1]) <= |text|
    ensures var gs := Groups(es);
            var p := Offset(gs[i - 1]);
            |ComposeGroups(text, gs[..i]).text| >= p
            && ComposeGroups(text, gs[..i]).text[..p] == text[..p]
  {
    var gs := Groups(es);
    var p := Offset(gs[i - 1]);
    GroupsDescend(es);
    GroupsAreBuckets(es);
    forall g: seq<Entity>, e: Entity | g in gs[..i] && e in g ensures p <= e.offset {
      var k :| 0 <= k < i && gs[k] == g;
      assert g in gs;
      assert Offset(gs[k]) >= p;
    }
    ComposeKeepsPrefix(text, gs[..i], p);
  }

  /** Without entities the whole text gets common escaping (a text free of
      the split marker). */
  lemma FillWithoutEntities(text: string)
    requires forall j: nat :: !OccursAt(text, Residual.SplitKeyword, j)
    ensures FillMarkup(text, []) == EscapeCommonChars(text)
  {
    assert Groups([]) == [];
    assert Compose(text, []) == Composite(text, []);
    Residual.ResidualWithoutRecords(text);
  }

  lemma SingleGroup(e: Entity)
    ensures Groups([e]) == [[e]] && Chain([e]) == [e]
  {
    var es := [e];
    assert MaxOffset(es) == e.offset;
    assert es[1..] == [];
    assert WithOffset(es, e.offset) == [e];
    assert WithoutOffset(es, e.offset) == [];
    assert Reverse([]) == [];
  }

  /** A group of one entity replaces the entity's extract by the markup of
      its escaped text, shifting the rest of the text, and records that
      markup. */
  lemma LoneEntity(buf: string, e: Entity)
    requires e.offset + e.length <= |buf|
    ensures var w := Markup(EscapeMarkdownTextByEntity(buf[e.offset..e.offset + e.length], e), e);
            ProcessChain(buf, [e], 0, None)
              == Composite(buf[..e.offset] + w + buf[e.offset + e.length..], [Record(w, e)])
  {
    LoneStep(buf, e);
    SingleChain(buf, e, 0, None);
  }

  lemma LoneStep(buf: string, e: Entity)
    requires e.offset + e.length <= |buf|
    ensures var s := ProcessEntity(buf, e, 0, None);
            var w := Markup(EscapeMarkdownTextByEntity(buf[e.offset..e.offset + e.length], e), e);
            s.wrapped == w && s.text == buf[..e.offset] + w + buf[e.offset + e.length..]
  {
    SliceAround(buf, e.offset, e.length);
    StepInnermost(buf[..e.offset], buf[e.offset..], e);
  }

  lemma SingleChain(buf: string, e: Entity, offset: nat, prev: Option<string>)
    ensures var s := ProcessEntity(buf, e, offset, prev);
            ProcessChain(buf, [e], offset, prev) == Composite(s.text, [Record(s.wrapped, e)])
  {
    var s := ProcessEntity(buf, e, offset, prev);
    var chain := [e];
    assert chain[0] == e && chain[1..] == [];
    assert ProcessChain(s.text, chain[1..], s.offset, Some(s.wrapped)) == Composite(s.text, []);
    assert [Record(s.wrapped, e)] + [] == [Record(s.wrapped, e)];
  }

  lemma SliceAround(buf: string, o: nat, n: nat)
    requires o + n <= |buf|
    ensures buf == buf[..o] + buf[o..]
    ensures buf[o..][..n] == buf[o..o + n] && buf[o..][n..] == buf[o + n..]
  {
  }

  /** An entity spanning the whole text turns it into that entity's markup
      of its escaped text, which residual escaping then leaves alone. */
  lemma FillWholeTextEntity(text: string, e: Entity)
    requires e.offset == 0 && e.length == |text|
    ensures FillMarkup(text, [e]) == Markup(EscapeMarkdownTextByEntity(text, e), e)
  {
    var w := Markup(EscapeMarkdownTextByEntity(text, e), e);
    ComposeLone(text, e);
    WholeChain(text, e, w);
    Residual.WholeTextRecord(w, e);
  }

  /** The entities of a lone entity make one group of one chain. */
  lemma ComposeLone(text: string, e: Entity)
    ensures Compose(text, [e]) == ProcessChain(text, [e], 0, None)
  {
    SingleGroup(e);
    var c := ProcessChain(text, [e], 0, None);
    assert [[e]][1..] == [];
    assert ComposeGroups(c.text, []) == Composite(c.text, []);
    assert c.records + [] == c.records;
  }

  /** Processing an entity spanning the whole text leaves its markup. */
  lemma WholeChain(text: string, e: Entity, w: string)
    requires e.offset == 0 && e.length == |text|
    requires w == Markup(EscapeMarkdownTextByEntity(text, e), e)
    ensures ProcessChain(text, [e], 0, None) == Composite(w, [Record(w, e)])
  {
    LoneEntity(text, e);
    WholeSlices(text, e.offset, e.length);
    Pad(text[..e.offset], w, text[e.offset + e.length..]);
  }

  /** Solver step: the slices of a whole-text window. */
  lemma WholeSlices(t: string, o: nat, n: nat)
    requires o == 0 && n == |t|
    ensures t[o..o + n] == t && t[..o] == [] && t[o + n..] == []
  {
  }

  /** Solver step: padding by two empty strings. */
  lemma Pad(a: string, w: string, b: string)
    requires a == [] && b == []
    ensures a + w + b == w
  {
  }

  /** Solver step: associativity of record sequences, kept out of the loop
      proofs of ProcessGroup and ComposeAll so that their contexts stay small. */
  lemma AppendAssoc(a: seq<Record>, b: seq<Record>, c: seq<Record>)
    ensures a + (b + c) == (a + b) + c
  {
  }

  /** One iteration of the loop over the top-level entities: the nested
      members of `group` innermost first, then its first-listed member,
      each through processEntity; returns the text and the pushed records. */
  method ProcessGroup(text: string, group: seq<Entity>) returns (newText: string, pushed: seq<Record>)
    requires group != []
    ensures newText == ProcessChain(text, Chain(group), 0, None).text
    ensures pushed == ProcessChain(text, Chain(group), 0, None).records
  {
    var entity := group[0];
    var offset: nat := 0;
    var modifiedText := text;
    var prevNestedWrappedText: Option<string> := None;
    var nestedEntities := Reverse(group[1..]);
    ghost var chain := nestedEntities + [entity];
    ghost var target := ProcessChain(text, chain, 0, None);
    assert chain == Chain(group);
    assert chain[0..] == chain;
    pushed := [];
    for ni := 0 to |nestedEntities|
      invariant
        var cr := ProcessChain(modifiedText, chain[ni..], offset, prevNestedWrappedText);
        cr.text == target.text && pushed + cr.records == target.records
    {
      var nestedEntity := nestedEntities[ni];
      ProcessChainAt(modifiedText, chain, ni, offset, prevNestedWrappedText);
      var s := ProcessEntity(modifiedText, nestedEntity, offset, prevNestedWrappedText);
      ghost var cr := ProcessChain(s.text, chain[ni + 1..], s.offset, Some(s.wrapped));
      AppendAssoc(pushed, [Record(s.wrapped, nestedEntity)], cr.records);
      pushed := pushed + [Record(s.wrapped, nestedEntity)];
      modifiedText := s.text;
      offset := s.offset;
      prevNestedWrappedText := Some(s.wrapped);
    }
    ProcessChainAt(modifiedText, chain, |nestedEntities|, offset, prevNestedWrappedText);
    assert chain[|nestedEntities| + 1..] == [];
    var s := ProcessEntity(modifiedText, entity, offset, prevNestedWrappedText);
    assert ProcessChain(s.text, [], s.offset, Some(s.wrapped)) == Composite(s.text, []);
    AppendAssoc(pushed, [Record(s.wrapped, entity)], []);
    pushed := pushed + [Record(s.wrapped, entity)];
    newText := s.text;
  }

  /** The loop of fillMarkdownEntitiesMarkup over the groups: every group
      is processed in turn and its records appended. */
  method ComposeAll(text: string, groups: seq<seq<Entity>>) returns (t: string, recs: seq<Record>)
    requires forall i | 0 <= i < |groups| :: groups[i] != []
    ensures t == ComposeGroups(text, groups).text
    ensures recs == ComposeGroups(text, groups).records
  {
    ghost var final := ComposeGroups(text, groups);
    recs := [];
    t := text;
    assert groups[0..] == groups;
    for gi := 0 to |groups|
      invariant ComposeGroups(t, groups[gi..]).text == final.text
      invariant recs + ComposeGroups(t, groups[gi..]).records == final.records
    {
      ComposeGroupsAt(t, groups, gi);
      var groupText, pushed := ProcessGroup(t, groups[gi]);
      ghost var rest := ComposeGroups(groupText, groups[gi + 1..]);
      AppendAssoc(recs, pushed, rest.records);
      recs := recs + pushed;
      t := groupText;
    }
    assert groups[|groups|..] == [];
  }

  method FillMarkdownEntitiesMarkup(text: string, entities: seq<Entity>) returns (result: string)
    ensures result == FillMarkup(text, entities)
  {
    // the buckets of `_.groupBy`, highest offset first
    var groups := Groups(entities);
    var t, wrappedEscapedEntitiesArr := ComposeAll(text, groups);
    result := Residual.EscapeNotInEntities(t, wrappedEscapedEntitiesArr);
  }
}
