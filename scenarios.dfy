/** Worked instances of the model on small inputs. */
module Scenarios {
  import opened Utils
  import opened Escaping
  import opened Entities
  import opened Grouping
  import opened Compositor
  import opened Rendering
  import Residual

  /** Letters and spaces. */
  predicate Plain(c: char)
  {
    ('a' <= c <= 'z') || ('A' <= c <= 'Z') || c == ' '
  }

  /** Escaping leaves a text of letters and spaces as it is. */
  lemma PlainUnescaped(t: string)
    requires forall i | 0 <= i < |t| :: Plain(t[i])
    ensures EscapeCommonChars(t) == t
  {
    forall i | 0 <= i < |t| ensures t[i] !in CommonChars {
      assert Plain(t[i]);
    }
  }

  /** A word of letters and spaces, given as `t` and spelt out as `u`. */
  lemma PlainWord(t: string, u: string)
    requires t == u && forall i | 0 <= i < |u| :: Plain(u[i])
    ensures EscapeCommonChars(t) == u
  {
    PlainUnescaped(t);
  }

  lemma HelloPlain()
    ensures EscapeCommonChars("Hello") == "Hello"
  {
    PlainWord("Hello", "Hello");
  }

  lemma WorldPlain()
    ensures EscapeCommonChars(" world") == " world"
  {
    PlainWord(" world", " world");
  }

  /** A lone entity at the start of the text. */
  lemma LoneAtStart(a: string, b: string, e: Entity)
    requires e.offset == 0 && e.length == |a|
    ensures Compose(a + b, [e])
              == Composite(Markup(EscapeMarkdownTextByEntity(a, e), e) + b,
                           [Record(Markup(EscapeMarkdownTextByEntity(a, e), e), e)])
  {
    SingleGroup(e);
    OneGroup(a + b, [e]);
    LoneEntity(a + b, e);
    StartSlices(a, b, Markup(EscapeMarkdownTextByEntity(a, e), e), e.offset, e.length);
  }

  lemma OneGroup(t: string, g: seq<Entity>)
    ensures ComposeGroups(t, [g]) == ProcessChain(t, Chain(g), 0, None)
  {
    var gs := [g];
    assert gs[1..] == [];
    var c := ProcessChain(t, Chain(g), 0, None);
    assert ComposeGroups(c.text, []) == Composite(c.text, []);
    assert c.records + [] == c.records;
  }

  lemma StartSlices(a: string, b: string, w: string, o: nat, n: nat)
    requires o == 0 && n == |a|
    ensures (a + b)[o..o + n] == a && (a + b)[..o] + w + (a + b)[o + n..] == w + b
  {
    assert (a + b)[..o] == [] && (a + b)[o + n..] == b;
  }

  lemma HelloMarkup(b: Entity)
    requires b.kind == Bold
    ensures Markup(EscapeMarkdownTextByEntity("Hello", b), b) == "**" + "Hello" + "**"
  {
    HelloPlain();
    WrapTagTable("Hello", b);
  }

  lemma HelloCompose()
    ensures Compose("Hello" + " world", [Entity(Bold, 0, 5, None, None)])
              == Composite("**" + "Hello" + "**" + " world", [Record("**" + "Hello" + "**", Entity(Bold, 0, 5, None, None))])
  {
    LoneAtStart("Hello", " world", Entity(Bold, 0, 5, None, None));
    HelloMarkup(Entity(Bold, 0, 5, None, None));
  }

  /** A text shorter than the split marker cannot hold it. */
  lemma ShortNoMarker(t: string)
    requires |t| < |Residual.SplitKeyword|
    ensures forall j: nat :: !OccursAt(t, Residual.SplitKeyword, j)
  {
  }

  /** The bold "Hello" of "Hello world" is marked up and the rest, which
      holds no markup character, passes through residual escaping
      unchanged. */
  lemma HelloFill()
    ensures FillMarkup("Hello" + " world", [Entity(Bold, 0, 5, None, None)]) == "**" + "Hello" + "**" + " world"
  {
    HelloCompose();
    ShortNoMarker(" world");
    Residual.LeadingRecord("**" + "Hello" + "**", " world", Entity(Bold, 0, 5, None, None));
    WorldPlain();
  }

  lemma EscapeDot()
    ensures EscapeCommonChars(".") == "\\" + "."
  {
  }

  lemma DotMarkup(e: Entity)
    requires e.kind == Bold
    ensures Markup(EscapeMarkdownTextByEntity(".", e), e) == "**" + "\\" + "." + "**"
  {
    EscapeDot();
    WrapTagTable("\\" + ".", e);
  }

  /** `x` first found right after `u` is replaced there. */
  lemma ReplaceAfter(u: string, x: string, v: string, v': string, s: string)
    requires x != [] && forall i | 0 <= i < |u| :: u[i] != x[0]
    ensures ReplaceFirst(u + x + v + v', x, s) == u + s + v + v'
  {
    var t := u + x + v + v';
    assert t[|u|..|u| + |x|] == x;
    forall j | 0 <= j < |u| ensures !OccursAt(t, x, j) {
      assert t[j] == u[j];
    }
    assert OccursAt(t, x, |u|);
    assert FindFirst(t, x) == Some(|u|);
    assert t[..|u|] == u && t[|u| + |x|..] == v + v';
    assert u + s + (v + v') == u + s + v + v';
  }

  /** Residual escaping finds a fragment at its first occurrence anywhere
      in the text: in ".." with the first dot bold, the second dot is
      found inside the bold markup, so the escaped dot there is escaped a
      second time and the second dot stays bare, where escaping the
      fragment where it stands would give `**\.**\.`. */
  lemma FragmentFoundInsideMarkup()
    ensures FillMarkup("." + ".", [Entity(Bold, 0, 1, None, None)])
              == "**" + "\\" + ("\\" + ".") + "**" + "."
  {
    var b := Entity(Bold, 0, 1, None, None);
    LoneAtStart(".", ".", b);
    DotMarkup(b);
    ShortNoMarker(".");
    Residual.LeadingRecord("**" + "\\" + "." + "**", ".", b);
    EscapeDot();
    DotReplace();
  }

  lemma DotReplace()
    ensures ReplaceFirst("**" + "\\" + "." + "**" + ".", ".", "\\" + ".") == "**" + "\\" + ("\\" + ".") + "**" + "."
  {
    ReplaceAfter("**" + "\\", ".", "**", ".", "\\" + ".");
  }

  predicate PlainText(t: string)
  {
    forall i | 0 <= i < |t| :: Plain(t[i])
  }

  lemma ItalicPlain(a: string, e: Entity)
    requires e.kind == Italic && PlainText(a)
    ensures Markup(EscapeMarkdownTextByEntity(a, e), e) == "\r*" + a + "*\r"
  {
    PlainUnescaped(a);
    WrapTagTable(a, e);
  }

  lemma BoldPlain(m: string, b: string, e: Entity)
    requires e.kind == Bold && b != [] && PlainText(b)
    ensures Markup(m + EscapeMarkdownTextByEntity(b, e), e) == "**" + m + b + "**"
  {
    PlainUnescaped(b);
    assert (m + b)[|m + b| - 1] == b[|b| - 1];
    WrapTagTable(m + b, e);
  }

  /** Two entities at one offset, the longer listed first, form one group
      processed shorter first. */
  lemma PairGroup(outer: Entity, inner: Entity)
    requires outer.offset == inner.offset
    ensures Groups([outer, inner]) == [[outer, inner]]
    ensures Chain([outer, inner]) == [inner, outer]
  {
    var es := [outer, inner];
    assert es[1..] == [inner] && es[1..][1..] == [];
    assert MaxOffset(es) == outer.offset;
    assert WithOffset(es, outer.offset) == es;
    assert WithoutOffset(es, outer.offset) == [];
    assert Reverse([inner]) == [inner];
  }

  lemma BoldItalicChain(a: string, b: string, c: string, bold: Entity, italic: Entity)
    requires bold.kind == Bold && italic.kind == Italic
    requires italic.length == |a| && bold.length == |a| + |b|
    requires b != [] && PlainText(a) && PlainText(b)
    ensures RenderChain(a + b + c, [italic, bold]) == ("**" + ("\r*" + a + "*\r") + b + "**", c)
  {
    ThreeSlices(a, b, c);
    RenderChainHead(a + b + c, italic, [italic, bold]);
    ItalicPlain(a, italic);
    assert [italic, bold][1..] == [bold] && [bold][1..] == [];
    WrapOutwardHead("\r*" + a + "*\r", b + c, bold, [bold], |a|);
    BoldPlain("\r*" + a + "*\r", b, bold);
  }

  lemma ThreeSlices(a: string, b: string, c: string)
    ensures (a + b + c)[..|a|] == a && (a + b + c)[|a|..] == b + c
    ensures (b + c)[..|b|] == b && (b + c)[|b|..] == c
  {
    assert a + b + c == a + (b + c);
  }

  /** Bold around italic at the start of the text: the italic text is
      wrapped and guarded first, the bold wraps it together with the rest of
      its own text, and the text after the bold is left as it is. */
  lemma BoldAroundItalic(a: string, b: string, c: string)
    requires b != [] && PlainText(a) && PlainText(b)
    ensures Compose(a + b + c, [Entity(Bold, 0, |a| + |b|, None, None), Entity(Italic, 0, |a|, None, None)]).text
              == "**" + ("\r*" + a + "*\r") + b + "**" + c
  {
    var bold := Entity(Bold, 0, |a| + |b|, None, None);
    var italic := Entity(Italic, 0, |a|, None, None);
    NestedMarkup(a + b + c, [bold, italic]);
    PairGroup(bold, italic);
    BoldItalicChain(a, b, c, bold, italic);
    LoneGroupAtStart(a + b + c, [bold, italic], "**" + ("\r*" + a + "*\r") + b + "**", c);
  }

  /** A single group at offset 0 renders as its nest rendering alone. */
  lemma LoneGroupAtStart(t: string, g: seq<Entity>, x: string, y: string)
    requires g != [] && Offset(g) == 0 && RenderChain(t, Chain(g)) == (x, y)
    ensures RenderGroups(t, [g]) == x + y
  {
    EdgeSlices(t, x, y);
    RenderGroupsHead(t, [g], 0, x, y);
    assert [g][1..] == [];
  }

  /** Solver step: the slices at offset 0, kept out of LoneGroupAtStart's
      context. */
  lemma EdgeSlices(t: string, x: string, y: string)
    ensures t[0..] == t && t[..0] == [] && [] + x + y == x + y
  {
  }

  /** Entities nested across different offsets are not rendered as a nest:
      with bold over "ab" and italic over "b", the italic is wrapped first,
      and the bold extract, still two characters long, then takes "a" and
      the italic's opening carriage return, so the bold closes inside the
      italic markup. */
  lemma CrossOffsetNest()
    ensures Compose("ab", [Entity(Bold, 0, 2, None, None), Entity(Italic, 1, 1, None, None)]).text
              == "**a\r**" + "*b*\r"
  {
    var bold := Entity(Bold, 0, 2, None, None);
    var italic := Entity(Italic, 1, 1, None, None);
    CrossOffsetGroups(bold, italic);
    var c := ProcessChain("ab", [italic], 0, None);
    ItalicFirst(italic);
    BoldOverMarkup(bold, c.text);
    TwoGroups("ab", [italic], [bold]);
  }

  lemma CrossOffsetGroups(bold: Entity, italic: Entity)
    requires bold.offset == 0 && italic.offset == 1
    ensures Groups([bold, italic]) == [[italic], [bold]]
  {
    var es := [bold, italic];
    assert es[1..] == [italic] && es[1..][1..] == [];
    assert MaxOffset(es) == 1;
    assert WithOffset(es, 1) == [italic];
    assert WithoutOffset(es, 1) == [bold];
    SingleGroup(bold);
  }

  /** The italic "b" is wrapped and guarded in place. */
  lemma ItalicFirst(italic: Entity)
    requires italic == Entity(Italic, 1, 1, None, None)
    ensures ProcessChain("ab", [italic], 0, None).text == "a" + "\r*b*\r"
  {
    LoneEntity("ab", italic);
    assert "ab"[1..2] == "b" && "ab"[..1] == "a" && "ab"[2..] == [];
    ItalicPlain("b", italic);
  }

  /** The bold extract of two characters is "a" and a carriage return. */
  lemma BoldOverMarkup(bold: Entity, t: string)
    requires bold == Entity(Bold, 0, 2, None, None) && t == "a" + "\r*b*\r"
    ensures ProcessChain(t, [bold], 0, None).text == "**a\r**" + "*b*\r"
  {
    var x := "a\r";
    var rest := "*b*\r";
    assert t == x + rest;
    LeadingEntity(x, rest, bold);
    BoldReturn(bold);
  }

  /** A lone entity over the leading part `x` of the text. */
  lemma LeadingEntity(x: string, rest: string, e: Entity)
    requires e.offset == 0 && e.length == |x|
    ensures ProcessChain(x + rest, [e], 0, None).text == Markup(EscapeMarkdownTextByEntity(x, e), e) + rest
  {
    LoneEntity(x + rest, e);
    StartSlices(x, rest, Markup(EscapeMarkdownTextByEntity(x, e), e), e.offset, e.length);
  }

  lemma BoldReturn(bold: Entity)
    requires bold.kind == Bold
    ensures Markup(EscapeMarkdownTextByEntity("a\r", bold), bold) == "**a\r**"
  {
    var x := "a\r";
    assert forall i | 0 <= i < |x| :: x[i] !in CommonChars;
    assert EscapeCommonChars(x) == x;
    WrapTagTable(x, bold);
  }

  /** Two groups of one entity each, the higher offset first. */
  lemma TwoGroups(t: string, g: seq<Entity>, h: seq<Entity>)
    requires g != [] && h != [] && Chain(g) == g && Chain(h) == h
    ensures ComposeGroups(t, [g, h]).text
              == ProcessChain(ProcessChain(t, g, 0, None).text, h, 0, None).text
  {
    var gs := [g, h];
    assert gs[1..] == [h];
    var c := ProcessChain(t, g, 0, None);
    OneGroup(c.text, h);
  }
}
