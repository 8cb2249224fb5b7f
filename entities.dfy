/** Formatting entities and the two per-entity rules: which escaping applies
    to an entity's text, and which tags wrap it. */
module Entities {
  import opened Utils
  import opened Escaping

  /** The entity types the converter knows; any other type name is `Other`. */
  datatype EntityKind =
    | Bold | Italic | Underline | Strikethrough | Code | Pre | TextLink
    | Mention | TextMention | Url | Hashtag | BotCommand | Cashtag | Email
    | PhoneNumber | Other(name: string)

  /** The type names the converter recognises, one per named kind. */
  const KnownTypeNames: set<string> := {
    "bold", "italic", "underline", "strikethrough", "code", "pre", "text_link",
    "mention", "text_mention", "url", "hashtag", "bot_command", "cashtag",
    "email", "phone_number"}

  /** A type name the converter does not recognise: only such a name is
      read as `Other`, a recognised one is read as its own kind. */
  predicate UnknownType(k: EntityKind)
  {
    k.Other? && k.name !in KnownTypeNames
  }

  /** An entity covers [offset, offset + length) of the original text; `url`
      is read for text links, `language` for pre blocks. */
  datatype Entity = Entity(
    kind: EntityKind, offset: nat, length: nat,
    url: Option<string>, language: Option<string>)

  /** One produced-span record: the wrapped text made for an entity. */
  datatype Record = Record(wrapped: string, entity: Entity)

  /** Kinds whose text receives common escaping (mention included: its
      first branch in the dispatch shadows the link-escaping one). */
  const CommonEscapedKinds: set<EntityKind> :=
    {Bold, Italic, Underline, Strikethrough, Mention, Url, Hashtag, BotCommand,
     Cashtag, Email, PhoneNumber}

  /** escapeMarkdownTextByEntity: the escaping chosen by the entity type. */
  function EscapeMarkdownTextByEntity(t: string, e: Entity): (r: string)
    ensures |r| >= |t|
    ensures t == [] ==> r == []
  {
    if e.kind == Bold then EscapeCommonChars(t)
    else if e.kind == Italic then EscapeCommonChars(t)
    else if e.kind == Underline then EscapeCommonChars(t)
    else if e.kind == Strikethrough then EscapeCommonChars(t)
    else if e.kind == Code then EscapeCodeChars(t)
    else if e.kind == Pre then EscapeCodeChars(t)
    else if e.kind == TextLink then EscapeLinkChars(t)
    else if e.kind == Mention then EscapeCommonChars(t)
    else if e.kind == TextMention then EscapeLinkChars(t)
    else if e.kind == Mention then EscapeLinkChars(t)
    else if e.kind == Url then EscapeCommonChars(t)
    else if e.kind == Hashtag then EscapeCommonChars(t)
    else if e.kind == BotCommand then EscapeCommonChars(t)
    else if e.kind == Cashtag then EscapeCommonChars(t)
    else if e.kind == Email then EscapeCommonChars(t)
    else if e.kind == PhoneNumber then EscapeCommonChars(t)
    else t
  }

  /** The escaping each kind receives: common escaping for the formatting
      kinds and, through the shadowed branch, for mentions; code escaping
      for code and pre; link escaping for text links and text mentions;
      none for an unknown type. */
  lemma EscapeDispatch(t: string, e: Entity)
    ensures e.kind in CommonEscapedKinds ==> EscapeMarkdownTextByEntity(t, e) == EscapeCommonChars(t)
    ensures e.kind == Code || e.kind == Pre ==> EscapeMarkdownTextByEntity(t, e) == EscapeCodeChars(t)
    ensures e.kind == TextLink || e.kind == TextMention ==>
      EscapeMarkdownTextByEntity(t, e) == EscapeLinkChars(t)
    ensures UnknownType(e.kind) ==> EscapeMarkdownTextByEntity(t, e) == t
  {
  }

  /** A template literal `${entity.url}` reads a missing url as "undefined". */
  function UrlText(url: Option<string>): string
  {
    if url.Some? then url.value else "undefined"
  }

  /** `entity.language` is used only when present and non-empty. */
  predicate HasLanguage(e: Entity)
  {
    e.language.Some? && e.language.value != []
  }

  /** `text.slice(1)`. */
  function DropFirst(t: string): string
  {
    if t == [] then [] else t[1..]
  }

  /** The open and close tags of the non-pre kinds that are wrapped; None
      for the kinds that are returned unwrapped. */
  function Tags(e: Entity, t: string): (r: Option<(string, string)>)
    ensures r.Some? ==> r.value.0 != [] && r.value.1 != []
  {
    match e.kind
    case Bold => Some(("**", "**"))
    case Italic => Some(("*", "*"))
    case Underline => Some(("<ins>", "</ins>"))
    case Strikethrough => Some(("~", "~"))
    case Code => Some(("```", "```"))
    case TextLink => Some(("[", "](" + UrlText(e.url) + ")"))
    case TextMention => Some(("[", "](https://t.me/" + DropFirst(t) + ")"))
    case Mention => Some(("[", "](https://t.me/" + DropFirst(t) + ")"))
    case _ => None
  }

  /** wrapTextWithMarkdownEntity: a pre block is fenced, the other kinds
      with tags are wrapped in them, the rest is returned as it is. */
  function WrapTextWithMarkdownEntity(t: string, e: Entity): (r: string)
    ensures |r| >= |t|
  {
    if e.kind == Pre then
      var openTag := "```" + (if HasLanguage(e) then e.language.value + "\n" else "\n");
      var closeTag := "```";
      openTag + t + closeTag
    else
      match Tags(e, t)
      case None => t
      case Some((openTag, closeTag)) =>
        var breakLinePosition := LastIndexOf(t, '\n');
        if breakLinePosition > -1 && EndsWithBreak(t) then
          assert breakLinePosition == |t| - 1;
          openTag + InsertAt(t, breakLinePosition, closeTag)
        else
          openTag + t + closeTag
  }

  /** The shapes of wrapTextWithMarkdownEntity. A pre block is fenced as it
      is, the language line only when a language is given; for the other
      wrapped kinds a text ending in a line break gets its close tag just
      before that final line break. */
  lemma WrapShape(t: string, e: Entity)
    ensures e.kind == Pre ==>
      WrapTextWithMarkdownEntity(t, e)
      == "```" + (if HasLanguage(e) then e.language.value else "") + "\n" + t + "```"
    ensures e.kind != Pre && Tags(e, t).Some? && !EndsWithBreak(t) ==>
      WrapTextWithMarkdownEntity(t, e)
      == Tags(e, t).value.0 + t + Tags(e, t).value.1
    ensures e.kind != Pre && Tags(e, t).Some? && EndsWithBreak(t) ==>
      WrapTextWithMarkdownEntity(t, e)
      == Tags(e, t).value.0 + t[..|t| - 1] + Tags(e, t).value.1 + "\n"
    ensures e.kind != Pre && Tags(e, t).None? ==> WrapTextWithMarkdownEntity(t, e) == t
  {
  }

  /** The tag table for a text that does not end in a line break. */
  lemma WrapTagTable(t: string, e: Entity)
    requires !EndsWithBreak(t)
    ensures e.kind == Bold ==> WrapTextWithMarkdownEntity(t, e) == "**" + t + "**"
    ensures e.kind == Italic ==> WrapTextWithMarkdownEntity(t, e) == "*" + t + "*"
    ensures e.kind == Underline ==> WrapTextWithMarkdownEntity(t, e) == "<ins>" + t + "</ins>"
    ensures e.kind == Strikethrough ==> WrapTextWithMarkdownEntity(t, e) == "~" + t + "~"
    ensures e.kind == Code ==> WrapTextWithMarkdownEntity(t, e) == "```" + t + "```"
    ensures e.kind == TextLink ==>
      WrapTextWithMarkdownEntity(t, e) == "[" + t + "](" + UrlText(e.url) + ")"
    ensures e.kind == Mention || e.kind == TextMention ==>
      WrapTextWithMarkdownEntity(t, e) == "[" + t + "](https://t.me/" + DropFirst(t) + ")"
    ensures e.kind in {Url, Hashtag, BotCommand, Cashtag, Email, PhoneNumber} || UnknownType(e.kind) ==>
      WrapTextWithMarkdownEntity(t, e) == t
  {
    WrapShape(t, e);
  }

  /** The italic/underline ambiguity guard: a carriage return on both sides. */
  function GuardAmbiguity(w: string, e: Entity): (r: string)
  {
    if e.kind == Underline || e.kind == Italic then "\r" + w + "\r" else w
  }

  /** What processEntity records for an entity whose (partly escaped) text
      is `t`: the wrapped text, guarded for italic and underline. */
  function Markup(t: string, e: Entity): (r: string)
    ensures |r| >= |t|
    ensures e.kind != Italic && e.kind != Underline ==> r == WrapTextWithMarkdownEntity(t, e)
  {
    GuardAmbiguity(WrapTextWithMarkdownEntity(t, e), e)
  }

  /** Italic and underline markup carries a carriage return on both sides
      of the wrapped text. */
  lemma MarkupGuarded(t: string, e: Entity)
    ensures e.kind == Italic || e.kind == Underline ==>
      Markup(t, e) == "\r" + WrapTextWithMarkdownEntity(t, e) + "\r"
    ensures var r := Markup(t, e);
      e.kind == Italic || e.kind == Underline ==> |r| >= 2 && r[0] == '\r' && r[|r| - 1] == '\r'
  {
  }
}
