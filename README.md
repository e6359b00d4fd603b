# djangocms_seo: the SEO page extension, modelled in Dafny

`djangocms_seo` attaches an SEO extension to django CMS pages. Editors keep
three catalogs of reusable definitions: meta tags (`MetaTag`), Open Graph
properties (`OpenGraphMeta`) and Twitter Card properties
(`TwitterCardMeta`). Each definition is a key, drawn from a fixed set of
choices, and a content string. A page's `SeoExtension` links catalog rows
through three join tables (`SeoExtensionMetaTag`,
`SeoExtensionOpenGraphMeta` and `SeoExtensionTwitterMeta`). Each join row
can carry an optional `additional_info` note. Both foreign keys of every
join row cascade on delete. `SeoExtension.get_seo_html` renders the page's
block of `<meta …>` lines:

- first the meta tags, then the Open Graph properties, then the Twitter Card properties;
- the lines are joined by newlines and indented by four spaces with `textwrap.indent`;
- the block is wrapped in a leading and a trailing newline.

The project has six modules:

- `Wrappers` (wrappers.dfy) holds the `Option` and `Result` types.
- `Seqs` (seqs.dfy) filters a sequence and proves the facts about filtering that the cascades need: subsequence, partition, commutation.
- `PyText` (pytext.dfy) models the Python string operations the renderer uses:
  - `str.join`;
  - `str.split`, which is used only to read a block back line by line;
  - `str.splitlines(keepends=True)`, over Python's line-boundary characters, with `\r\n` kept together;
  - `textwrap.indent`, which prefixes every line except those made only of whitespace, as `str.isspace` defines it.
- `Catalog` (catalog.dfy) holds the three catalog entities as one `Entry` datatype with one constructor each. It also holds their `__str__` and the field validation Django applies to their columns.
- `Render` (render.dfy) defines `SeoHtml`, the value `get_seo_html` returns as a function of the three collections it walks, and proves what that output looks like.
- `Store` (store.dfy) is the store as a class, `SeoStore`. It holds:
  - the catalogs, as maps from row id to `Entry`;
  - the set of extension ids;
  - the three join tables, as sequences of `JoinRow` in table order;
  - an id counter.

  Its methods create, edit, link, unlink and delete rows (cascades included). `GetSeoHtml` is the three-loop `get_seo_html`, and it is proved equal to `Render.SeoHtml` applied to the extension's three collections.

The three choice sets (`META_TAG_NAMES`, `OG_PROPERTY_NAMES`,
`TWITTER_CARD_PROPERTIES`) are defined in `djangocms_seo/utils.py`, which is
not part of this model. They are parameters of the `SeoStore` constructor
and stay fixed after that.

## Model

| member | source | states |
|---|---|---|
| Catalog.StrShape | djangocms_seo/models.py:19-20 | Every catalog row's string is a `<meta ` tag ending in `">`, with the row's content inserted verbatim (unescaped) just before the closing `">`. This holds for all three catalogs; lines 31-32 and 43-44 are the other two. |
| Catalog.StrNoLineBreak | djangocms_seo/models.py:31-32 | A row's `<meta …>` line contains no line break exactly when its key and its content contain none (both directions). This holds for all three catalogs. |
| Catalog.StrHasNonSpace | djangocms_seo/models.py:43-44 | A row's `<meta …>` line is never whitespace only, so `textwrap.indent` prefixes its first line, and the whole line when it is a single line. |
| Catalog.Validate | djangocms_seo/models.py:12-13 | A row is valid exactly when no error is reported (both directions). A row is valid when its key is non-empty, one of the choices and at most 100 characters, and its content is non-empty and at most 255 characters. Exactly one error is reported per failing column, so the count is the number of failing columns. Each error is reported exactly when its condition holds, checked in Django's order within each column, and with the key's error listed before the content's: a blank key; a key outside the choices; a key over 100 characters, which is reported only for a choice; blank content; content over 255 characters. The other catalogs' fields are at lines 24-25 and 36-37. |
| PyText.IndentJoin | djangocms_seo/models.py:128 | Indenting newline-joined lines that have no line break and are not whitespace only gives the lines each prefixed with the indentation, joined by newlines. |
| PyText.SplitJoin | djangocms_seo/models.py:128 | Splitting a separator-joined list of lines, none of which contains the separator, gives back the lines: the partner of `'\n'.join`. |
| PyText.SplitLinesConcat | djangocms_seo/models.py:128 | The pieces `splitlines(keepends=True)` cuts a text into concatenate back to the text, so indentation loses no character. |
| Render.EmptyBlock | djangocms_seo/models.py:128-131 | The block is exactly `"\n\n"` if and only if the page links no meta tag, no Open Graph entry and no Twitter Card entry. |
| Render.SingleLineBlock | djangocms_seo/models.py:128-131 | When every key and content is a single line, the block is a newline, then the rendered lines each prefixed with four spaces and joined by newlines, then a newline. |
| Render.BlockLines | djangocms_seo/models.py:113-131 | Read back line by line, a non-empty block of single-line entries has one line per link, so none is merged or deduplicated, plus an empty first and last line. Line k+1 is four spaces followed by the k-th link's `<meta …>` string. The links run meta tags first, then Open Graph, then Twitter Card, each in its collection's own order. |
| Render.CategoriesInOrder | djangocms_seo/models.py:115-125 | For any two line positions i <= j, the catalog of line i does not come after the catalog of line j in the order meta tags, Open Graph, Twitter Card. |
| Render.SingleMetaTagBlock | djangocms_seo/models.py:116-131 | A page linking a single meta tag with single-line name and content renders exactly `"\n    <meta name=\"{name}\" content=\"{content}\">\n"`. |
| Store.DeleteEntryRows | djangocms_seo/models.py:51 | Cascading the deletion of a catalog row acts on each extension separately: every extension's links lose exactly the rows pointing at the deleted row, in order. |
| Store.DeleteExtensionRows | djangocms_seo/models.py:48-50 | Cascading the deletion of an extension empties its links and leaves every other extension's links unchanged, order included. |
| Store.CollectionIgnoresNotes | djangocms_seo/models.py:52-54 | An extension's collection, and so its rendered block, depends only on which catalog rows its join rows point at. Row ids and `additional_info` notes play no part. |
| Store.SeoStore.constructor | djangocms_seo/models.py:98-107 | A new store has empty catalogs, no extensions, empty join tables and the given choice sets, and its invariant holds. |
| Store.SeoStore.Related | djangocms_seo/models.py:98-107 | `extension.<collection>.all()` is the catalog rows the extension's join rows point at, one per join row in table order, and every one belongs to that collection's catalog. |
| Store.SeoStore.CreateEntry | djangocms_seo/models.py:11-13 | A row that fails validation is reported with exactly `Validate`'s errors, and nothing changes. A valid row is stored under a fresh id in its own catalog, and nothing else changes. The store invariant is kept: every catalog row is valid, and every join row points at an existing extension and an existing catalog row, and no two rows of a join table share an id (`id` is the primary key). |
| Store.SeoStore.CreateExtension | djangocms_seo/models.py:98-107 | A new extension gets a fresh id, and its three collections are empty. Catalogs and join tables are unchanged. |
| Store.LinkErrors | djangocms_seo/models.py:47-54 | A new join row's errors: one per failing field, in field order. Unknown extension comes first, unknown catalog row next, and a note over 255 characters last. The list is empty exactly when all three fields pass. |
| Store.SeoStore.AddLink | djangocms_seo/models.py:47-54 | Linking fails exactly when the extension is unknown, the catalog row is unknown, or the note is over 255 characters. It then reports every failing field, as `LinkErrors` lists them, and changes nothing. A successful link appends one row with a fresh id to that join table only. The extension's collection grows by exactly the linked row at its end, even when that row is already linked. |
| Store.SeoStore.UpdateNote | djangocms_seo/models.py:52-54 | Editing a join row's `additional_info` in place fails with an unknown-row error when no row of that table has the id. Otherwise it fails when the note is over 255 characters. Either failure changes nothing. A successful edit changes only that row's note. No page's collections and no page's rendered block change, since the note is never rendered. |
| Store.SeoStore.UpdateEntry | djangocms_seo/models.py:11-13 | Saving an edited catalog row fails for an unknown id or with exactly `Validate`'s errors, and then nothing changes. Otherwise the row is replaced under its own id and the join tables are unchanged. Every collection keeps its length, and each position that pointed at the row now holds the new row, so linking pages render the new key and content in place. Other catalogs' collections are unchanged. |
| Store.SeoStore.RemoveLink | djangocms_seo/models.py:47-54 | Deleting one join row removes the row with that id from that table and nothing else. Since ids are unique, an existing row makes the table exactly one row shorter. Every extension other than that row's own keeps its collection unchanged. Catalog rows and extensions are untouched, and the invariant is kept. |
| Store.SeoStore.DeleteEntry | djangocms_seo/models.py:68 | Deleting a catalog row removes it, and nothing else, from its catalog. The cascade removes exactly the join rows pointing at it, across all extensions. The table shrinks by that many rows and keeps the rest in order, as a subsequence. Each extension's rows become its old rows minus the ones pointing at the deleted row. Each page's collection shrinks by exactly its links to the deleted row, so the next render omits exactly those lines. A page with no link to it keeps its collection unchanged. The other join tables are unchanged. The same cascade is declared at lines 51 and 85. |
| Store.SeoStore.DeleteExtension | djangocms_seo/models.py:82-84 | Deleting an extension removes all its join rows from the three join tables and empties its collections. The catalogs are unchanged. Every other extension's collections are unchanged, and so is its rendered block (the same cascade is declared at lines 48-50 and 65-67). |
| Store.SeoStore.GetSeoHtml | djangocms_seo/models.py:112-131 | The three loops append each linked row's f-string line in collection order, and the lines are joined, indented and wrapped. The result equals `Render.SeoHtml` of the extension's three collections, a function of the current state only, so two calls with no write between them agree. |

## Left out

- The join models' and the extension's `__str__` (djangocms_seo/models.py:61, 78, 95, 109-110) are not modelled. They print the page the extension is attached to, and the CMS page model is not part of this model.
- `mark_safe` is not modelled: the model returns the plain string.
- `gettext_lazy` labels, `Meta` verbose names and `extension_pool.register` carry no behaviour, so they are not modelled.
- `PageExtension` bookkeeping (one extension per page, the `extended_object` link, the publish-time copy of extensions) is framework code and is not part of this model. Extensions are bare ids.
- The admin, forms and toolbar modules are not part of this model.
- Database ordering: `.all()` carries no `ordering`, so a collection is taken to be yielded in join-table order. No other order is claimed.
- Pointing an existing join row at a different catalog row or extension in place is not modelled. Only its note can be edited (`UpdateNote`). A delete followed by `AddLink` is not the same edit: it moves the row to the end of its table, and so changes the order it renders in.
- Validation is modelled at the model-field level: `Field.clean` per column, with every failing field reported. A plain ORM `save()` skips validation; that path is not modelled.
- Catalog.Validate: the admin's model form strips surrounding whitespace from `content` before validating. So the admin rejects `"   "` as blank and stores `" x "` as `"x"`. `Validate` and `CreateEntry` take the value as given and accept `"   "`. The forms layer is not part of this model.
- HTML escaping is not done by the source. Content goes into the tag verbatim, and the model states only that.
- Python's line boundaries are modelled as the characters `str.splitlines` breaks on, and Python whitespace as the characters `str.isspace` accepts. Unicode normalisation and encodings play no part.
- `RemoveLink`, `DeleteEntry` and `DeleteExtension` do nothing, and report nothing, for an id that no row carries, as a queryset `delete()` does. A lookup of a single object that fails with an error is not modelled for them.
- Concurrency, transactions and database integrity errors are not modelled.
