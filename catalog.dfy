/**
 * The three catalogs of reusable SEO definitions: `MetaTag`, `OpenGraphMeta`
 * and `TwitterCardMeta`, each a (key, content) pair whose key is restricted
 * to a closed set of choices. Their string form is the `<meta …>` line the
 * page head shows for them.
 */
module Catalog {
  import opened Wrappers
  import opened PyText

  /** The three catalogs, in the order the renderer emits them. */
  datatype Category = MetaTags | OpenGraph | TwitterCard
  {
    function Rank(): nat
    {
      match this
      case MetaTags => 0
      case OpenGraph => 1
      case TwitterCard => 2
    }
  }

  /** One catalog row; the constructor says which catalog it belongs to. */
  datatype Entry =
    | MetaTag(name: string, content: string)
    | OpenGraphMeta(property: string, content: string)
    | TwitterCardMeta(name: string, content: string)
  {
    function Category(): Category
    {
      match this
      case MetaTag(_, _) => MetaTags
      case OpenGraphMeta(_, _) => OpenGraph
      case TwitterCardMeta(_, _) => TwitterCard
    }

    /** The choice-restricted column: `name`, or `property` for Open Graph. */
    function Key(): string
    {
      if OpenGraphMeta? then property else name
    }

    /** The column name of `Key()`, as validation errors report it. */
    function KeyField(): string
    {
      if OpenGraphMeta? then "property" else "name"
    }
  }

  /** `max_length` of the key columns. */
  const KeyMaxLength: nat := 100
  /** `max_length` of the content columns. */
  const ContentMaxLength: nat := 255

  /** The literal part of the tag before the key. */
  function TagOpening(e: Entry): string
  {
    match e
    case MetaTag(_, _) => "<meta name=\""
    case OpenGraphMeta(_, _) => "<meta property=\"og:"
    case TwitterCardMeta(_, _) => "<meta name=\"twitter:"
  }

  /** The part of the tag before the content: the attribute naming the key. */
  function TagHead(e: Entry): string
  {
    TagOpening(e) + e.Key()
  }

  /** `__str__` of a catalog row: its `<meta …>` tag, content inserted verbatim. */
  function Str(e: Entry): string
  {
    TagHead(e) + "\" content=\"" + e.content + "\">"
  }

  /** A meta tag's line, spelled out. */
  lemma MetaTagStr(name: string, content: string)
    ensures Str(MetaTag(name, content)) == "<meta name=\"" + name + "\" content=\"" + content + "\">"
  {
    var e := MetaTag(name, content);
    assert TagHead(e) == "<meta name=\"" + name by {
      assert TagOpening(e) == "<meta name=\"";
      assert e.Key() == name;
    }
  }

  /**
   * The line is a `<meta` tag whose last attribute value is the row's
   * content, inserted verbatim (no escaping), right before the closing `">`.
   */
  lemma StrShape(e: Entry)
    ensures var r := Str(e);
      && |r| > |e.content| + 6 && r[..6] == "<meta "
      && r[|r| - 2..] == "\">"
      && r[|r| - 2 - |e.content|..|r| - 2] == e.content
  {
    TagOpeningSingleLine(e);
  }

  /** The literal tag opening holds no line break. */
  lemma TagOpeningSingleLine(e: Entry)
    ensures NoLineBreak(TagOpening(e))
  {
  }

  /** The rendered line is a single line exactly when the row's key and content are. */
  lemma StrNoLineBreak(e: Entry)
    ensures NoLineBreak(Str(e)) <==> NoLineBreak(e.Key()) && NoLineBreak(e.content)
  {
    TagOpeningSingleLine(e);
    var middle, closing := "\" content=\"", "\">";
    assert NoLineBreak(middle) && NoLineBreak(closing);
    NoLineBreakConcat(TagOpening(e), e.Key());
    NoLineBreakConcat(TagHead(e), middle);
    NoLineBreakConcat(TagHead(e) + middle, e.content);
    NoLineBreakConcat(TagHead(e) + middle + e.content, closing);
  }

  /** A rendered line is never whitespace only, so indentation always prefixes it. */
  lemma StrHasNonSpace(e: Entry)
    ensures HasNonSpace(Str(e))
  {
    assert !IsSpace(Str(e)[0]);
  }

  // ---------------------------------------------------------------------
  // Field validation
  // ---------------------------------------------------------------------

  /** What field validation reports about one column. */
  datatype FieldError =
    | Blank(field: string)
    | InvalidChoice(field: string)
    | TooLong(field: string, limit: nat)

  /**
   * A row every catalog may hold: its key is a non-empty choice of at most
   * `KeyMaxLength` characters, its content non-empty and at most
   * `ContentMaxLength` characters.
   */
  predicate ValidEntry(e: Entry, choices: set<string>)
  {
    && e.Key() != "" && e.Key() in choices && |e.Key()| <= KeyMaxLength
    && e.content != "" && |e.content| <= ContentMaxLength
  }

  /** Cleaning of a choice column: blank check, then the choices, then `max_length`. */
  function CleanKey(field: string, value: string, choices: set<string>): Option<FieldError>
  {
    if value == "" then Some(Blank(field))
    else if value !in choices then Some(InvalidChoice(field))
    else if |value| > KeyMaxLength then Some(TooLong(field, KeyMaxLength))
    else None
  }

  /** Cleaning of a content column: blank check, then `max_length`. */
  function CleanContent(value: string): Option<FieldError>
  {
    if value == "" then Some(Blank("content"))
    else if |value| > ContentMaxLength then Some(TooLong("content", ContentMaxLength))
    else None
  }

  /** A column's cleaning result as a list of zero or one error. */
  function Errors(o: Option<FieldError>): seq<FieldError>
  {
    if o.Some? then [o.value] else []
  }

  /** Validates every column of a row and collects the errors, one per failing column. */
  function Validate(e: Entry, choices: set<string>): (errs: seq<FieldError>)
    ensures errs == [] <==> ValidEntry(e, choices)
    ensures |errs| <= 2
    ensures Blank("content") in errs <==> e.content == ""
    ensures TooLong("content", ContentMaxLength) in errs <==> |e.content| > ContentMaxLength
    ensures Blank(e.KeyField()) in errs <==> e.Key() == ""
    ensures InvalidChoice(e.KeyField()) in errs <==> e.Key() != "" && e.Key() !in choices
    ensures TooLong(e.KeyField(), KeyMaxLength) in errs
        <==> e.Key() != "" && e.Key() in choices && |e.Key()| > KeyMaxLength
    ensures CleanKey(e.KeyField(), e.Key(), choices).Some? ==> errs[0] == CleanKey(e.KeyField(), e.Key(), choices).value
    ensures |errs| == (if e.Key() != "" && e.Key() in choices && |e.Key()| <= KeyMaxLength then 0 else 1)
                    + (if e.content != "" && |e.content| <= ContentMaxLength then 0 else 1)
  {
    Errors(CleanKey(e.KeyField(), e.Key(), choices)) + Errors(CleanContent(e.content))
  }
}
