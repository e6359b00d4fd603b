/**
 * What `SeoExtension.get_seo_html` returns, as a function of the three
 * collections it walks, and what that output looks like.
 */
module Render {
  import opened PyText
  import opened Catalog

  /** The prefix `textwrap.indent` is given. */
  const Indentation := "    "

  /** One `__str__` line per entry, in order. */
  function Lines(entries: seq<Entry>): (r: seq<string>)
    ensures |r| == |entries|
    ensures forall i :: 0 <= i < |entries| ==> r[i] == Str(entries[i])
  {
    seq(|entries|, i requires 0 <= i < |entries| => Str(entries[i]))
  }

  /**
   * The block for a page: meta tags, then Open Graph, then Twitter Card lines,
   * joined by newlines, indented, and wrapped in a leading and a trailing newline.
   */
  function SeoHtml(metaTags: seq<Entry>, ogMeta: seq<Entry>, twitterMeta: seq<Entry>): string
  {
    "\n" + Indent(Join("\n", Lines(metaTags + ogMeta + twitterMeta)), Indentation) + "\n"
  }

  /** The entry the `k`-th content line is rendered from. */
  function EntryAt(metaTags: seq<Entry>, ogMeta: seq<Entry>, twitterMeta: seq<Entry>, k: nat): Entry
    requires k < |metaTags| + |ogMeta| + |twitterMeta|
  {
    if k < |metaTags| then metaTags[k]
    else if k < |metaTags| + |ogMeta| then ogMeta[k - |metaTags|]
    else twitterMeta[k - |metaTags| - |ogMeta|]
  }

  /** Every key and content is a single line (the usual case for short metadata). */
  predicate SingleLine(entries: seq<Entry>)
  {
    forall i :: 0 <= i < |entries| ==> NoLineBreak(entries[i].Key()) && NoLineBreak(entries[i].content)
  }

  /** `lines` holds the `__str__` line of each entry, in order. */
  predicate RendersAs(lines: seq<string>, entries: seq<Entry>)
  {
    |lines| == |entries| && forall k :: 0 <= k < |lines| ==> lines[k] == Str(entries[k])
  }

  /** Appending an entry's line to its lines keeps them in step. */
  lemma RendersAsAppend(lines: seq<string>, entries: seq<Entry>, e: Entry)
    requires RendersAs(lines, entries)
    ensures RendersAs(lines + [Str(e)], entries + [e])
  {
  }

  /** Lines built one entry at a time are exactly `Lines` of those entries. */
  lemma RendersAsLines(lines: seq<string>, entries: seq<Entry>)
    requires RendersAs(lines, entries)
    ensures lines == Lines(entries)
  {
  }

  /** The output is the empty block exactly when the page links no entry at all. */
  lemma EmptyBlock(metaTags: seq<Entry>, ogMeta: seq<Entry>, twitterMeta: seq<Entry>)
    ensures SeoHtml(metaTags, ogMeta, twitterMeta) == "\n\n"
        <==> metaTags == [] && ogMeta == [] && twitterMeta == []
  {
    var lines := Lines(metaTags + ogMeta + twitterMeta);
    var joined := Join("\n", lines);
    if lines != [] {
      StrShape((metaTags + ogMeta + twitterMeta)[0]);
      assert |joined| >= |lines[0]| > 0;
      assert |SeoHtml(metaTags, ogMeta, twitterMeta)| > 2;
    } else {
      assert metaTags + ogMeta + twitterMeta == [];
    }
  }

  /**
   * When every key and content is a single line, the block is the rendered
   * lines, each prefixed with the indentation, joined by newlines, between
   * two newlines.
   */
  lemma SingleLineBlock(metaTags: seq<Entry>, ogMeta: seq<Entry>, twitterMeta: seq<Entry>)
    requires SingleLine(metaTags + ogMeta + twitterMeta)
    ensures SeoHtml(metaTags, ogMeta, twitterMeta)
         == "\n" + Join("\n", Prefixed(Indentation, Lines(metaTags + ogMeta + twitterMeta))) + "\n"
  {
    var all := metaTags + ogMeta + twitterMeta;
    var lines := Lines(all);
    forall k | 0 <= k < |lines| ensures NoLineBreak(lines[k]) && HasNonSpace(lines[k]) {
      StrNoLineBreak(all[k]);
      StrHasNonSpace(all[k]);
    }
    IndentJoin(lines, Indentation);
  }

  /**
   * Read back line by line, a non-empty block holds one indented line per
   * link: meta tags first, then Open Graph, then Twitter Card, each
   * collection in its own order, nothing merged or dropped.
   */
  lemma BlockLines(metaTags: seq<Entry>, ogMeta: seq<Entry>, twitterMeta: seq<Entry>)
    requires SingleLine(metaTags + ogMeta + twitterMeta)
    requires metaTags + ogMeta + twitterMeta != []
    ensures var out := Split(SeoHtml(metaTags, ogMeta, twitterMeta), '\n');
      && |out| == |metaTags| + |ogMeta| + |twitterMeta| + 2
      && out[0] == "" && out[|out| - 1] == ""
      && forall k :: 0 <= k < |out| - 2 ==>
           out[k + 1] == Indentation + Str(EntryAt(metaTags, ogMeta, twitterMeta, k))
  {
    var all := metaTags + ogMeta + twitterMeta;
    var prefixed := Prefixed(Indentation, Lines(all));
    SingleLineBlock(metaTags, ogMeta, twitterMeta);
    IndentedLinesHaveNoNewline(all);
    SplitWrappedJoin(prefixed, '\n');
    assert "\n" + Join("\n", prefixed) + "\n" == ['\n'] + Join(['\n'], prefixed) + ['\n'];
    forall k | 0 <= k < |all| ensures all[k] == EntryAt(metaTags, ogMeta, twitterMeta, k) {
    }
  }

  /** Indented single-line entries hold no newline character, the separator the block is read back on. */
  lemma IndentedLinesHaveNoNewline(entries: seq<Entry>)
    requires SingleLine(entries)
    ensures var prefixed := Prefixed(Indentation, Lines(entries));
      forall k, i :: 0 <= k < |prefixed| && 0 <= i < |prefixed[k]| ==> prefixed[k][i] != '\n'
  {
    var prefixed := Prefixed(Indentation, Lines(entries));
    forall k, i | 0 <= k < |prefixed| && 0 <= i < |prefixed[k]| ensures prefixed[k][i] != '\n' {
      StrNoLineBreak(entries[k]);
      if i >= |Indentation| {
        assert prefixed[k][i] == Str(entries[k])[i - |Indentation|];
      }
    }
  }

  /** Lines come out grouped by catalog, in the fixed catalog order. */
  lemma CategoriesInOrder(metaTags: seq<Entry>, ogMeta: seq<Entry>, twitterMeta: seq<Entry>, i: nat, j: nat)
    requires forall e :: e in metaTags ==> e.MetaTag?
    requires forall e :: e in ogMeta ==> e.OpenGraphMeta?
    requires forall e :: e in twitterMeta ==> e.TwitterCardMeta?
    requires i <= j < |metaTags| + |ogMeta| + |twitterMeta|
    ensures EntryAt(metaTags, ogMeta, twitterMeta, i).Category().Rank()
         <= EntryAt(metaTags, ogMeta, twitterMeta, j).Category().Rank()
  {
    if j >= |metaTags| + |ogMeta| {
      assert EntryAt(metaTags, ogMeta, twitterMeta, j) in twitterMeta;
    } else if i < |metaTags| {
      assert EntryAt(metaTags, ogMeta, twitterMeta, i) in metaTags;
    } else {
      assert EntryAt(metaTags, ogMeta, twitterMeta, i) in ogMeta;
      assert EntryAt(metaTags, ogMeta, twitterMeta, j) in ogMeta;
    }
  }

  /** A block of one single-line entry is that entry's line, indented, between two newlines. */
  lemma OneEntryBlock(e: Entry)
    requires SingleLine([e])
    ensures SeoHtml([e], [], []) == "\n" + (Indentation + Str(e)) + "\n"
  {
    assert [e] + [] + [] == [e];
    SingleLineBlock([e], [], []);
    assert Prefixed(Indentation, Lines([e])) == [Indentation + Str(e)];
  }

  /**
   * A page linking one meta tag whose name and content are single lines renders to that
   * tag, indented by four spaces, between two newlines.
   */
  lemma SingleMetaTagBlock(name: string, content: string)
    requires NoLineBreak(name) && NoLineBreak(content)
    ensures SeoHtml([MetaTag(name, content)], [], [])
         == "\n" + "    " + "<meta name=\"" + name + "\" content=\"" + content + "\">" + "\n"
  {
    var e := MetaTag(name, content);
    assert SingleLine([e]) by {
      assert NoLineBreak(e.Key()) && NoLineBreak(e.content);
    }
    OneEntryBlock(e);
    MetaTagStr(name, content);
  }
}
