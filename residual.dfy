/** The residual escaper: after compositing, the produced wrapped spans are
    located in the final text, spans lying inside a different span are
    dropped, and every remaining fragment outside them is common-escaped. */
module Residual {
  import opened Utils
  import opened Escaping
  import opened Entities

  /** Where a record's wrapped text was found: [start, end) and the text there. */
  datatype Span = Span(start: nat, end: nat, str: string)

  /** The marker that replaces safe spans before the text is split. */
  const SplitKeyword: string := "[splitKeyword]"

  /** The spans the first loop collects: for each record, in order, whose
      wrapped text occurs in `t`, the first occurrence of that text. */
  function LocateSpans(t: string, recs: seq<Record>): (r: seq<Span>)
    ensures |r| <= |recs|
    decreases |recs|
  {
    if recs == [] then []
    else
      var prior := LocateSpans(t, recs[..|recs| - 1]);
      var w := recs[|recs| - 1].wrapped;
      match FindFirst(t, w)
      case None => prior
      case Some(index) => prior + [Span(index, index + |w|, Substr(t, index, |w|))]
  }

  /** Every located span is the first occurrence of its text. */
  lemma {:induction false} LocateSpansFound(t: string, recs: seq<Record>)
    ensures forall s | s in LocateSpans(t, recs) ::
              s.start + |s.str| == s.end <= |t| && t[s.start..s.end] == s.str
              && FindFirst(t, s.str) == Some(s.start)
    decreases |recs|
  {
    if recs != [] {
      var init := recs[..|recs| - 1];
      LocateSpansFound(t, init);
      var w := recs[|recs| - 1].wrapped;
      match FindFirst(t, w)
      case None =>
      case Some(index) =>
        assert Substr(t, index, |w|) == w;
    }
  }

  /** Every record whose wrapped text occurs in the text yields the span of
      its first occurrence. */
  lemma {:induction false} LocateSpansComplete(t: string, recs: seq<Record>, rec: Record)
    requires rec in recs && FindFirst(t, rec.wrapped).Some?
    ensures Span(FindFirst(t, rec.wrapped).value,
                 FindFirst(t, rec.wrapped).value + |rec.wrapped|, rec.wrapped) in LocateSpans(t, recs)
    decreases |recs|
  {
    var n := |recs| - 1;
    var init := recs[..n];
    var last := recs[n];
    LocateSpansStep(t, recs, n);
    assert recs[..n + 1] == recs;
    if rec != last {
      assert recs == init + [last];
      LocateSpansComplete(t, init, rec);
    } else {
      var index := FindFirst(t, rec.wrapped).value;
      assert OccursAt(t, rec.wrapped, index);
      assert Substr(t, index, |rec.wrapped|) == rec.wrapped;
    }
  }

  /** The step of the first loop. */
  lemma LocateSpansStep(t: string, recs: seq<Record>, i: nat)
    requires i < |recs|
    ensures FindFirst(t, recs[i].wrapped).None? ==> LocateSpans(t, recs[..i + 1]) == LocateSpans(t, recs[..i])
    ensures FindFirst(t, recs[i].wrapped).Some? ==>
              var index := FindFirst(t, recs[i].wrapped).value;
              var w := recs[i].wrapped;
              LocateSpans(t, recs[..i + 1]) == LocateSpans(t, recs[..i]) + [Span(index, index + |w|, Substr(t, index, |w|))]
  {
    assert recs[..i + 1][..i] == recs[..i];
  }

  /** `n` lies inside another located span whose text differs. */
  predicate CoveredByOther(n: Span, all: seq<Span>)
  {
    exists m | m in all :: m.str != n.str && n.start >= m.start && n.end <= m.end
  }

  function KeepFrom(all: seq<Span>, s: seq<Span>): seq<Span>
  {
    if s == [] then []
    else (if CoveredByOther(s[0], all) then [] else [s[0]]) + KeepFrom(all, s[1..])
  }

  /** The filter of escapedOffsets. */
  function KeepOutermost(all: seq<Span>): (r: seq<Span>)
    ensures forall n | n in r :: n in all && !CoveredByOther(n, all)
  {
    KeepFromMembers(all, all);
    KeepFrom(all, all)
  }

  lemma {:induction false} KeepFromMembers(all: seq<Span>, s: seq<Span>)
    ensures forall n :: n in KeepFrom(all, s) <==> n in s && !CoveredByOther(n, all)
  {
    if s != [] {
      KeepFromMembers(all, s[1..]);
      assert s == [s[0]] + s[1..];
    }
  }

  /** A located span survives the filter exactly when no span with
      different content contains it: no surviving span lies inside a
      different-content span, and every dropped one does. */
  lemma KeepOutermostMembers(all: seq<Span>)
    ensures forall n :: n in KeepOutermost(all) <==> n in all && !CoveredByOther(n, all)
  {
    KeepFromMembers(all, all);
  }

  /** The second loop: each surviving span's text is replaced, at its first
      occurrence in the text rewritten so far, by the split marker. */
  function MarkSpans(t: string, spans: seq<Span>): (r: string)
    ensures (forall k: nat, j: nat | k < |spans| :: !OccursAt(t, spans[k].str, j)) ==> r == t
    decreases |spans|
  {
    if spans == [] then t
    else
      var init := spans[..|spans| - 1];
      assert forall k | 0 <= k < |init| :: init[k] == spans[k];
      ReplaceFirst(MarkSpans(t, init), spans[|spans| - 1].str, SplitKeyword)
  }

  /** The third loop: each non-empty fragment that common escaping changes
      is replaced, at its first occurrence, by its escaped form. */
  function EscapeFragments(t: string, frags: seq<string>): (r: string)
    ensures |r| >= |t|
    decreases |frags|
  {
    if frags == [] then t
    else
      var prior := EscapeFragments(t, frags[..|frags| - 1]);
      var str := frags[|frags| - 1];
      if str == [] then prior
      else
        var escapedStr := EscapeCommonChars(str);
        if escapedStr != str then ReplaceFirst(prior, str, escapedStr) else prior
  }

  /** escapeNotInEntities as a function of the final text and the records. */
  function ResidualEscape(t: string, recs: seq<Record>): (r: string)
    ensures |r| >= |t|
  {
    var spans := KeepOutermost(LocateSpans(t, recs));
    EscapeFragments(t, Split(MarkSpans(t, spans), SplitKeyword))
  }

  lemma MarkSpansStep(t: string, spans: seq<Span>, i: nat)
    requires i < |spans|
    ensures MarkSpans(t, spans[..i + 1]) == ReplaceFirst(MarkSpans(t, spans[..i]), spans[i].str, SplitKeyword)
  {
    assert spans[..i + 1][..i] == spans[..i];
  }

  /** Spans that are the first occurrences of their strings in `t`, listed
      from the highest position down without overlapping, are each marked in
      place: the text below every span is kept, and the last span's region
      is exactly what the marker replaces. */
  lemma {:induction false} MarkSpansInPlace(t: string, spans: seq<Span>, m: nat)
    requires forall k | 0 <= k < |spans| ::
               spans[k].end == spans[k].start + |spans[k].str| && FindFirst(t, spans[k].str) == Some(spans[k].start)
    requires forall k, l | 0 <= k < l < |spans| :: spans[l].end <= spans[k].start
    requires m <= |t| && forall k | 0 <= k < |spans| :: m <= spans[k].start
    ensures |MarkSpans(t, spans)| >= m && MarkSpans(t, spans)[..m] == t[..m]
    ensures spans != [] ==>
              var s := spans[|spans| - 1];
              var p := MarkSpans(t, spans[..|spans| - 1]);
              s.end <= |p| && MarkSpans(t, spans) == p[..s.start] + SplitKeyword + p[s.end..]
    decreases |spans|
  {
    if spans != [] {
      var init := spans[..|spans| - 1];
      var s := spans[|spans| - 1];
      assert forall k | 0 <= k < |init| :: init[k] == spans[k];
      MarkSpansInPlace(t, init, s.end);
      var p := MarkSpans(t, init);
      MarkFirstInKeptPrefix(t, p, s);
      KeepsLowerText(t, p, s, m);
    }
  }

  /** A span that is its string's first occurrence in `t` is still the
      first occurrence in a text that agrees with `t` up to the span's end,
      so the marker replaces exactly its region. */
  lemma MarkFirstInKeptPrefix(t: string, p: string, s: Span)
    requires s.end == s.start + |s.str| && FindFirst(t, s.str) == Some(s.start)
    requires s.end <= |p| && p[..s.end] == t[..s.end]
    ensures ReplaceFirst(p, s.str, SplitKeyword) == p[..s.start] + SplitKeyword + p[s.end..]
  {
    assert p[s.start..s.end] == t[..s.end][s.start..s.end];
    forall j: nat | j < s.start
      ensures !OccursAt(p, s.str, j)
    {
      AgreeBelow(p, t, s.end, j, |s.str|);
      assert !OccursAt(t, s.str, j);
    }
    ReplaceFirstAt(p, s.str, SplitKeyword, s.start);
  }

  /** Solver step: texts that agree below `e` agree on every window below it. */
  lemma AgreeBelow(p: string, t: string, e: nat, j: nat, n: nat)
    requires j + n <= e <= |p| && e <= |t| && p[..e] == t[..e]
    ensures p[j..j + n] == t[j..j + n]
  {
    assert p[j..j + n] == p[..e][j..j + n];
    assert t[j..j + n] == t[..e][j..j + n];
  }

  /** Marking a span at or above `m` keeps the text below `m`. */
  lemma KeepsLowerText(t: string, p: string, s: Span, m: nat)
    requires m <= s.start <= s.end <= |p| && s.end <= |t| && p[..s.end] == t[..s.end]
    ensures var r := p[..s.start] + SplitKeyword + p[s.end..];
            |r| >= m && r[..m] == t[..m]
  {
    var r := p[..s.start] + SplitKeyword + p[s.end..];
    assert r[..m] == p[..m];
    assert p[..m] == p[..s.end][..m];
  }

  lemma EscapeFragmentsStep(t: string, frags: seq<string>, i: nat)
    requires i < |frags|
    ensures EscapeFragments(t, frags[..i + 1]) ==
      if frags[i] == [] || EscapeCommonChars(frags[i]) == frags[i] then EscapeFragments(t, frags[..i])
      else ReplaceFirst(EscapeFragments(t, frags[..i]), frags[i], EscapeCommonChars(frags[i]))
  {
    assert frags[..i + 1][..i] == frags[..i];
  }

  method EscapeNotInEntities(text: string, wrappedArr: seq<Record>) returns (result: string)
    ensures result == ResidualEscape(text, wrappedArr)
  {
    var escapedOffsets := LocateAll(text, wrappedArr);
    escapedOffsets := KeepOutermost(escapedOffsets);
    var textToSplit := MarkAll(text, escapedOffsets);
    var subsToEscape := Split(textToSplit, SplitKeyword);
    result := EscapeAll(text, subsToEscape);
  }

  /** The first loop of escapeNotInEntities: the first occurrence of each
      wrapped text, in push order. */
  method LocateAll(text: string, wrappedArr: seq<Record>) returns (escapedOffsets: seq<Span>)
    ensures escapedOffsets == LocateSpans(text, wrappedArr)
  {
    escapedOffsets := [];
    for i := 0 to |wrappedArr|
      invariant escapedOffsets == LocateSpans(text, wrappedArr[..i])
    {
      var str := wrappedArr[i].wrapped;
      LocateSpansStep(text, wrappedArr, i);
      var found := FindFirst(text, str);
      if found.Some? {
        var index := found.value;
        escapedOffsets := escapedOffsets + [Span(index, index + |str|, Substr(text, index, |str|))];
      }
    }
    assert wrappedArr[..|wrappedArr|] == wrappedArr;
  }

  /** The second loop: each kept span's text replaced by the marker. */
  method MarkAll(text: string, escapedOffsets: seq<Span>) returns (textToSplit: string)
    ensures textToSplit == MarkSpans(text, escapedOffsets)
  {
    textToSplit := text;
    for i := 0 to |escapedOffsets|
      invariant textToSplit == MarkSpans(text, escapedOffsets[..i])
    {
      MarkSpansStep(text, escapedOffsets, i);
      textToSplit := ReplaceFirst(textToSplit, escapedOffsets[i].str, SplitKeyword);
    }
    assert escapedOffsets[..|escapedOffsets|] == escapedOffsets;
  }

  /** The third loop: every fragment that escaping changes is replaced, at
      its first occurrence, by its escaped form. */
  method EscapeAll(text: string, subsToEscape: seq<string>) returns (result: string)
    ensures result == EscapeFragments(text, subsToEscape)
  {
    result := text;
    for i := 0 to |subsToEscape|
      invariant result == EscapeFragments(text, subsToEscape[..i])
    {
      EscapeFragmentsStep(text, subsToEscape, i);
      var str := subsToEscape[i];
      if str == [] {
        continue;
      }
      var escapedStr := EscapeCommonChars(str);
      if escapedStr != str {
        result := ReplaceFirst(result, str, escapedStr);
      }
    }
    assert subsToEscape[..|subsToEscape|] == subsToEscape;
  }

  /** Fragments that are empty or that escaping leaves unchanged are never
      replaced: when every fragment is such, the text comes back as it was. */
  lemma {:induction false} UnchangedFragmentsKeepText(t: string, frags: seq<string>)
    requires forall f | f in frags :: EscapeCommonChars(f) == f
    ensures EscapeFragments(t, frags) == t
    decreases |frags|
  {
    if frags != [] {
      var init := frags[..|frags| - 1];
      assert forall f | f in init :: f in frags;
      UnchangedFragmentsKeepText(t, init);
      assert frags[|frags| - 1] in frags;
    }
  }

  /** With no records, a text free of the split marker is common-escaped as
      a whole. */
  lemma ResidualWithoutRecords(t: string)
    requires forall j: nat :: !OccursAt(t, SplitKeyword, j)
    ensures ResidualEscape(t, []) == EscapeCommonChars(t)
  {
    assert LocateSpans(t, []) == [];
    assert KeepOutermost([]) == [];
    FindFirstAbsent(t, SplitKeyword);
    assert Split(t, SplitKeyword) == [t];
    var e := EscapeCommonChars(t);
    assert EscapeFragments(t, [t]) == (if t == [] then t else if e != t then ReplaceFirst(t, t, e) else t);
    FindFirstSelf(t);
    if t != [] && e != t {
      assert ReplaceFirst(t, t, e) == [] + e + [];
    }
  }

  /** A text that is exactly one record's wrapped text is kept as it is. */
  lemma WholeTextRecord(w: string, e: Entity)
    ensures ResidualEscape(w, [Record(w, e)]) == w
  {
    LeadingRecord(w, [], e);
    assert w + [] == w;
  }

  /** A text that starts with one record's wrapped text keeps that text
      out of the split, and its rest, when it holds no split marker, is the
      one fragment escaped: replaced by its escaped form at its first
      occurrence anywhere in the text. */
  lemma LeadingRecord(w: string, rest: string, e: Entity)
    requires forall j: nat :: !OccursAt(rest, SplitKeyword, j)
    ensures ResidualEscape(w + rest, [Record(w, e)])
              == if rest == [] || EscapeCommonChars(rest) == rest then w + rest
                 else ReplaceFirst(w + rest, rest, EscapeCommonChars(rest))
  {
    LeadingSpans(w, rest, e);
    LeadingMark(w, rest);
    MarkerSplit(rest);
    TwoFragments(w + rest, rest);
  }

  /** The record's wrapped text is found at the start and is the one span
      kept. */
  lemma LeadingSpans(w: string, rest: string, e: Entity)
    ensures KeepOutermost(LocateSpans(w + rest, [Record(w, e)])) == [Span(0, |w|, w)]
  {
    var t := w + rest;
    assert t[0..|w|] == w;
    assert FindFirst(t, w) == Some(0);
    assert Substr(t, 0, |w|) == w;
    var recs := [Record(w, e)];
    assert recs[..0] == [];
    var span := Span(0, |w|, w);
    assert LocateSpans(t, recs) == [span];
    assert !CoveredByOther(span, [span]);
    assert [span][1..] == [];
    assert KeepFrom([span], [span]) == [span] + KeepFrom([span], []);
  }

  /** Marking the leading span leaves the marker followed by the rest. */
  lemma LeadingMark(w: string, rest: string)
    ensures MarkSpans(w + rest, [Span(0, |w|, w)]) == SplitKeyword + rest
  {
    var t := w + rest;
    MarkOne(t, Span(0, |w|, w));
    ReplaceAtStart(w, rest, SplitKeyword);
  }

  lemma MarkOne(t: string, span: Span)
    ensures MarkSpans(t, [span]) == ReplaceFirst(t, span.str, SplitKeyword)
  {
    assert [span][..0] == [];
  }

  /** Replacing a text's own leading part `w` by `k`. */
  lemma ReplaceAtStart(w: string, rest: string, k: string)
    ensures ReplaceFirst(w + rest, w, k) == k + rest
  {
    var t := w + rest;
    assert t[0..|w|] == w;
    assert FindFirst(t, w) == Some(0);
    assert t[..0] == [] && t[|w|..] == rest;
    assert [] + k + rest == k + rest;
  }

  /** Escaping the fragments of a text whose first fragment is empty. */
  lemma TwoFragments(t: string, rest: string)
    ensures EscapeFragments(t, [[], rest])
              == if rest == [] || EscapeCommonChars(rest) == rest then t
                 else ReplaceFirst(t, rest, EscapeCommonChars(rest))
  {
    var frags: seq<string> := [[], rest];
    assert frags[..1] == [[]] && frags[..1][..0] == [];
    assert EscapeFragments(t, frags[..1]) == t;
    assert frags[..2] == frags;
    EscapeFragmentsStep(t, frags, 1);
  }

  lemma ReplaceInPlace(w: string, rest: string, s: string)
    requires FindFirst(w + rest, rest) == Some(|w|)
    ensures ReplaceFirst(w + rest, rest, s) == w + s
  {
    var t := w + rest;
    assert t[..|w|] == w && t[|w| + |rest|..] == [];
  }

  /** When the rest is first found where it stands, the text outside the
      record is exactly common-escaped. */
  lemma LeadingRecordInPlace(w: string, rest: string, e: Entity)
    requires forall j: nat :: !OccursAt(rest, SplitKeyword, j)
    requires FindFirst(w + rest, rest) == Some(|w|)
    ensures ResidualEscape(w + rest, [Record(w, e)]) == w + EscapeCommonChars(rest)
  {
    LeadingRecord(w, rest, e);
    ReplaceInPlace(w, rest, EscapeCommonChars(rest));
  }

  /** The marked text splits into the empty fragment and the rest. */
  lemma MarkerSplit(rest: string)
    requires forall j: nat :: !OccursAt(rest, SplitKeyword, j)
    ensures Split(SplitKeyword + rest, SplitKeyword) == [[], rest]
  {
    var m := SplitKeyword + rest;
    assert m[0..|SplitKeyword|] == SplitKeyword;
    assert FindFirst(m, SplitKeyword) == Some(0);
    assert m[|SplitKeyword|..] == rest;
    FindFirstAbsent(rest, SplitKeyword);
  }
}
