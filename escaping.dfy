/** The three escaping primitives: a backslash before every character of a
    fixed set (common text, code and pre content, link text). */
module Escaping {
  import opened Utils

  /** Characters that are markup syntax in ordinary text. */
  const CommonChars: set<char> :=
    {'_', '*', '[', ']', '(', ')', '~', '`', '>', '#', '+', '-', '=', '|', '{', '}', '.', '!'}

  /** Characters escaped inside code and pre content. */
  const CodeChars: set<char> := {'`', '\\'}

  /** Characters escaped before common escaping in link text. */
  const LinkChars: set<char> := {')', '\\'}

  /** escapeCommonChars: a text holding no markup character is returned
      as it is. */
  function EscapeCommonChars(t: string): (r: string)
    ensures |r| >= |t|
    ensures (forall i | 0 <= i < |t| :: t[i] !in CommonChars) ==> r == t
  {
    EscapeCharsIdentity(t, CommonChars);
    EscapeChars(t, CommonChars)
  }

  /** escapeCodeChars: a text without '`' and '\' is returned as it is. */
  function EscapeCodeChars(t: string): (r: string)
    ensures |r| >= |t|
    ensures (forall i | 0 <= i < |t| :: t[i] !in CodeChars) ==> r == t
  {
    EscapeCharsIdentity(t, CodeChars);
    EscapeChars(t, CodeChars)
  }

  /** escapeLinkChars, two passes: ')' and '\' first, then the common set
      over the result. */
  function EscapeLinkChars(t: string): (r: string)
    ensures |r| >= |t|
    ensures (forall i | 0 <= i < |t| :: t[i] !in LinkChars && t[i] !in CommonChars) ==> r == t
  {
    EscapeCharsIdentity(t, LinkChars);
    EscapeCommonChars(EscapeChars(t, LinkChars))
  }

  /** Common escaping loses nothing and changes exactly the texts that hold
      a common markup character. */
  lemma CommonEscaping(t: string)
    ensures Unescape(EscapeCommonChars(t), CommonChars) == t
    ensures EscapeCommonChars(t) == t <==> forall i | 0 <= i < |t| :: t[i] !in CommonChars
  {
    EscapeCharsRoundTrip(t, CommonChars);
    EscapeCharsIdentity(t, CommonChars);
  }

  /** Code escaping touches only '`' and '\': it changes exactly the texts
      holding one of them, and every inserted backslash is undone by reading
      back with the code set. */
  lemma CodeEscapingTouchesOnlyBacktickAndBackslash(t: string)
    ensures Unescape(EscapeCodeChars(t), CodeChars) == t
    ensures EscapeCodeChars(t) == t <==> forall i | 0 <= i < |t| :: t[i] != '`' && t[i] != '\\'
  {
    EscapeCharsRoundTrip(t, CodeChars);
    EscapeCharsIdentity(t, CodeChars);
  }

  /** Link escaping is undone by reading back the common set, then the link
      set; it changes exactly the texts that hold a character of either. */
  lemma LinkEscaping(t: string)
    ensures Unescape(Unescape(EscapeLinkChars(t), CommonChars), LinkChars) == t
    ensures EscapeLinkChars(t) == t <==>
              forall i | 0 <= i < |t| :: t[i] !in LinkChars && t[i] !in CommonChars
  {
    var inner := EscapeChars(t, LinkChars);
    EscapeCharsRoundTrip(t, LinkChars);
    EscapeCharsRoundTrip(inner, CommonChars);
    EscapeCharsIdentity(t, LinkChars);
    EscapeCharsIdentity(inner, CommonChars);
    if inner != t {
      // the first pass lengthened the text, and the second never shortens it
      assert |inner| > |t| by { EscapeCharsLonger(t, LinkChars); }
    }
  }

  lemma {:induction false} EscapeCharsLonger(t: string, cs: set<char>)
    requires EscapeChars(t, cs) != t
    ensures |EscapeChars(t, cs)| > |t|
  {
    if t != [] {
      if t[0] !in cs {
        assert EscapeChars(t, cs) == [t[0]] + EscapeChars(t[1..], cs);
        if EscapeChars(t[1..], cs) != t[1..] {
          EscapeCharsLonger(t[1..], cs);
        }
      }
    }
  }

  /** A closing parenthesis in link text comes out preceded by two
      backslashes: the backslash added by the first pass is not itself
      escaped again, but the parenthesis is escaped a second time. */
  lemma LinkEscapingOfParenthesis()
    ensures EscapeLinkChars(")") == ['\\', '\\', ')']
  {
    assert EscapeChars(")", LinkChars) == ['\\', ')'];
    assert EscapeChars(['\\', ')'], CommonChars) == ['\\'] + EscapeChars([')'], CommonChars);
  }
}
