/** Text helpers used by the converter.

    The repository's `./utils` module (escapeChars, rewriteTextAtPosition,
    insertTextAtPosition) is not part of this model: the definitions below
    state the semantics assumed for it. The other helpers stand for the
    JavaScript string built-ins the converter calls (substr, lastIndexOf,
    endsWith, literal first-occurrence search and replace, split). */
module Utils {

  datatype Option<+T> = None | Some(value: T)

  function Min(a: int, b: int): int { if a <= b then a else b }

  /** escapeChars(t, cs): one left-to-right pass that puts a backslash before
      every character of `t` belonging to `cs`; nothing is rescanned. */
  function EscapeChars(t: string, cs: set<char>): (r: string)
    ensures |r| >= |t|
    ensures t == [] ==> r == []
  {
    if t == [] then []
    else (if t[0] in cs then ['\\', t[0]] else [t[0]]) + EscapeChars(t[1..], cs)
  }

  /** Reading an escaped text back: a backslash followed by a character of
      `cs` stands for that character, every other character for itself. */
  function Unescape(s: string, cs: set<char>): string
    decreases |s|
  {
    if s == [] then []
    else if |s| >= 2 && s[0] == '\\' && s[1] in cs then [s[1]] + Unescape(s[2..], cs)
    else [s[0]] + Unescape(s[1..], cs)
  }

  /** Escaping is undone by Unescape, whatever backslashes the text held. */
  lemma {:induction false} EscapeCharsRoundTrip(t: string, cs: set<char>)
    ensures Unescape(EscapeChars(t, cs), cs) == t
  {
    if t != [] {
      var rest := EscapeChars(t[1..], cs);
      EscapeCharsRoundTrip(t[1..], cs);
      if t[0] in cs {
        var s := ['\\', t[0]] + rest;
        assert s[2..] == rest;
      } else {
        var s := [t[0]] + rest;
        assert s[1..] == rest;
        if |t| >= 2 {
          // the character after a kept backslash is a backslash that is not
          // in `cs`, or a character outside `cs`
          assert t[1..][1..] == t[2..];
          assert rest[0] == if t[1] in cs then '\\' else t[1];
        }
      }
    }
  }

  /** A text is left unchanged by escaping exactly when none of its
      characters belongs to the escaped set. */
  lemma {:induction false} EscapeCharsIdentity(t: string, cs: set<char>)
    ensures EscapeChars(t, cs) == t <==> forall i | 0 <= i < |t| :: t[i] !in cs
  {
    if t != [] {
      EscapeCharsIdentity(t[1..], cs);
      var r := EscapeChars(t, cs);
      if t[0] !in cs {
        assert r == [t[0]] + EscapeChars(t[1..], cs);
        if r == t {
          assert r[1..] == t[1..];
          forall i | 0 <= i < |t| ensures t[i] !in cs {
            if i > 0 { assert t[i] == t[1..][i - 1]; }
          }
        }
        if forall i | 0 <= i < |t| :: t[i] !in cs {
          forall i | 0 <= i < |t[1..]| ensures t[1..][i] !in cs {
            assert t[1..][i] == t[i + 1];
          }
          assert t == [t[0]] + t[1..];
        }
      }
    }
  }

  /** Escaping works character by character: it distributes over concatenation. */
  lemma {:induction false} EscapeCharsAppend(a: string, b: string, cs: set<char>)
    ensures EscapeChars(a + b, cs) == EscapeChars(a, cs) + EscapeChars(b, cs)
  {
    if a != [] {
      assert (a + b)[0] == a[0];
      assert (a + b)[1..] == a[1..] + b;
      EscapeCharsAppend(a[1..], b, cs);
    } else {
      assert a + b == b;
    }
  }

  /** String.prototype.substr for a non-negative start: the window
      [start, start + len) clipped to the text, empty for len <= 0. */
  function Substr(t: string, start: nat, len: int): (r: string)
    ensures 0 <= len && start + len <= |t| ==> r == t[start..start + len]
    ensures |r| <= |t|
  {
    if start >= |t| || len <= 0 then []
    else if start + len > |t| then t[start..]
    else t[start..start + len]
  }

  /** rewriteTextAtPosition(t, p, s, n): `n` characters of `t` starting at `p`
      are replaced by `s`; positions beyond the text are clipped to its end. */
  function RewriteAt(t: string, p: nat, s: string, n: nat): (r: string)
    ensures p + n <= |t| ==> r == t[..p] + s + t[p + n..]
    ensures p <= |t| ==> |r| >= p && r[..p] == t[..p]
  {
    t[..Min(p, |t|)] + s + t[Min(p + n, |t|)..]
  }

  /** insertTextAtPosition(t, p, s): `s` is inserted before position `p`. */
  function InsertAt(t: string, p: nat, s: string): (r: string)
    ensures p <= |t| ==> r == t[..p] + s + t[p..]
  {
    t[..Min(p, |t|)] + s + t[Min(p, |t|)..]
  }

  /** String.prototype.lastIndexOf for one character: -1 when absent. */
  function LastIndexOf(t: string, c: char): (r: int)
    ensures -1 <= r < |t|
    ensures r >= 0 ==> t[r] == c
  {
    if t == [] then -1
    else if t[|t| - 1] == c then |t| - 1
    else LastIndexOf(t[..|t| - 1], c)
  }

  /** No occurrence of `c` lies after the one found, and -1 means absent. */
  lemma {:induction false} LastIndexOfIsLast(t: string, c: char)
    ensures forall j | LastIndexOf(t, c) < j < |t| :: t[j] != c
  {
    if t != [] && t[|t| - 1] != c {
      LastIndexOfIsLast(t[..|t| - 1], c);
    }
  }

  /** String.prototype.endsWith("\n"). */
  predicate EndsWithBreak(t: string) { |t| > 0 && t[|t| - 1] == '\n' }

  predicate OccursAt(t: string, p: string, i: nat)
  {
    i + |p| <= |t| && t[i..i + |p|] == p
  }

  /** The first occurrence of `p` in `t` at or after position `i`. */
  function FindFrom(t: string, p: string, i: nat): (r: Option<nat>)
    decreases |t| - i
    ensures r.Some? ==> i <= r.value && OccursAt(t, p, r.value)
    ensures r.Some? ==> forall j | i <= j < r.value :: !OccursAt(t, p, j)
    ensures r.None? ==> forall j | i <= j :: !OccursAt(t, p, j)
  {
    if i + |p| > |t| then None
    else if t[i..i + |p|] == p then Some(i)
    else FindFrom(t, p, i + 1)
  }

  /** Literal first-occurrence search (what a regular expression built from
      an escaped literal finds); the empty pattern is found at 0. */
  function FindFirst(t: string, p: string): (r: Option<nat>)
  {
    FindFrom(t, p, 0)
  }

  /** String.prototype.replace with a string pattern: only the first
      occurrence is replaced, the text is unchanged when there is none. */
  function ReplaceFirst(t: string, p: string, s: string): (r: string)
    ensures FindFirst(t, p).Some? ==> |r| == |t| - |p| + |s|
    ensures (forall j: nat :: !OccursAt(t, p, j)) ==> r == t
  {
    match FindFirst(t, p)
    case None => t
    case Some(i) => t[..i] + s + t[i + |p|..]
  }

  /** String.prototype.split with a non-empty literal separator. */
  function Split(t: string, sep: string): (r: seq<string>)
    requires |sep| > 0
    ensures |r| > 0
    decreases |t|
  {
    match FindFirst(t, sep)
    case None => [t]
    case Some(i) => [t[..i]] + Split(t[i + |sep|..], sep)
  }

  /** The text is cut at every separator: no fragment holds one. */
  lemma {:induction false} SplitFragmentsFree(t: string, sep: string)
    requires |sep| > 0
    ensures forall f, j: nat | f in Split(t, sep) :: !OccursAt(f, sep, j)
    decreases |t|
  {
    match FindFirst(t, sep)
    case None =>
    case Some(i) =>
      SplitFragmentsFree(t[i + |sep|..], sep);
      forall j: nat ensures !OccursAt(t[..i], sep, j) {
        if OccursAt(t[..i], sep, j) {
          assert t[j..j + |sep|] == t[..i][j..j + |sep|];
          assert OccursAt(t, sep, j);
        }
      }
  }

  /** Replacing at a position where `p` occurs, with no occurrence before
      it, splices `s` in there. */
  lemma ReplaceFirstAt(t: string, p: string, s: string, i: nat)
    requires OccursAt(t, p, i)
    requires forall j | 0 <= j < i :: !OccursAt(t, p, j)
    ensures ReplaceFirst(t, p, s) == t[..i] + s + t[i + |p|..]
  {
  }

  /** The fragments joined back with the separator. */
  function Join(fs: seq<string>, sep: string): string
  {
    if fs == [] then [] else if |fs| == 1 then fs[0] else fs[0] + sep + Join(fs[1..], sep)
  }

  /** Splitting loses nothing: joining the fragments with the separator
      gives the text back. */
  lemma {:induction false} SplitJoin(t: string, sep: string)
    requires |sep| > 0
    ensures Join(Split(t, sep), sep) == t
    decreases |t|
  {
    match FindFirst(t, sep)
    case None =>
    case Some(i) =>
      var rest := t[i + |sep|..];
      SplitJoin(rest, sep);
      var r := Split(rest, sep);
      var fs := [t[..i]] + r;
      assert Split(t, sep) == fs;
      assert fs[0] == t[..i] && fs[1..] == r;
      assert t == t[..i] + sep + rest;
  }

  lemma FindFirstSelf(t: string)
    ensures FindFirst(t, t) == Some(0)
  {
    assert t[0..|t|] == t;
  }

  lemma FindFirstAbsent(t: string, p: string)
    requires forall j: nat :: !OccursAt(t, p, j)
    ensures FindFirst(t, p) == None
  {
  }
}
