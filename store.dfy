/**
 * The relational store behind the page SEO extension: the three catalogs,
 * the set of page extensions, and the three join tables that link an
 * extension to catalog rows (`SeoExtensionMetaTag`,
 * `SeoExtensionOpenGraphMeta`, `SeoExtensionTwitterMeta`). Both foreign keys
 * of every join row cascade on delete. `GetSeoHtml` is the extension's
 * `get_seo_html`, for the extension with the given id.
 */
module Store {
  import opened Wrappers
  import opened Seqs
  import opened Catalog
  import Render

  /** A join row: extension `extension` links catalog row `target`, with an optional note. */
  datatype JoinRow = JoinRow(id: nat, extension: nat, target: nat, additionalInfo: Option<string>)

  /** One value per catalog. */
  datatype ByCategory<T> = ByCategory(metaTags: T, openGraph: T, twitterCard: T)
  {
    function Get(c: Category): T
    {
      match c
      case MetaTags => metaTags
      case OpenGraph => openGraph
      case TwitterCard => twitterCard
    }

    function Set(c: Category, v: T): (r: ByCategory<T>)
      ensures r.Get(c) == v
      ensures forall d :: d != c ==> r.Get(d) == Get(d)
    {
      match c
      case MetaTags => this.(metaTags := v)
      case OpenGraph => this.(openGraph := v)
      case TwitterCard => this.(twitterCard := v)
    }
  }

  /** `max_length` of `additional_info`. */
  const NoteMaxLength: nat := 255

  /** Why a link could not be added. */
  datatype LinkError = UnknownExtension | UnknownEntry | InvalidNote(error: FieldError)

  /** `additional_info` is nullable and may be blank; only its length is checked. */
  function CleanNote(note: Option<string>): Option<FieldError>
  {
    if note.Some? && |note.value| > NoteMaxLength then Some(TooLong("additional_info", NoteMaxLength))
    else None
  }

  /**
   * The errors validating a new join row collects, one per failing field, in
   * field order: the extension, the catalog row, then `additional_info`.
   */
  function LinkErrors(knownExtension: bool, knownEntry: bool, note: Option<string>): (errs: seq<LinkError>)
    ensures errs == [] <==> knownExtension && knownEntry && CleanNote(note).None?
    ensures UnknownExtension in errs <==> !knownExtension
    ensures UnknownEntry in errs <==> !knownEntry
    ensures (exists err :: InvalidNote(err) in errs) <==> CleanNote(note).Some?
    ensures CleanNote(note).Some? ==> errs[|errs| - 1] == InvalidNote(CleanNote(note).value)
    ensures !knownExtension ==> errs[0] == UnknownExtension
    ensures |errs| == (if knownExtension then 0 else 1) + (if knownEntry then 0 else 1)
                    + (if CleanNote(note).Some? then 1 else 0)
  {
    (if knownExtension then [] else [UnknownExtension])
    + (if knownEntry then [] else [UnknownEntry])
    + (if CleanNote(note).Some? then [InvalidNote(CleanNote(note).value)] else [])
  }

  /** Why an edited join-row note could not be saved. */
  datatype NoteError = UnknownJoinRow | BadNote(error: FieldError)

  /** Why an edited catalog row could not be saved. */
  datatype UpdateError = UnknownRow | Invalid(errors: seq<FieldError>)

  /** `rows` with the note of the row carrying id `id` replaced; nothing else differs. */
  function WithNote(rows: seq<JoinRow>, id: nat, note: Option<string>): (r: seq<JoinRow>)
    ensures |r| == |rows|
    ensures forall i :: 0 <= i < |rows| ==>
      && r[i].id == rows[i].id && r[i].extension == rows[i].extension && r[i].target == rows[i].target
      && r[i].additionalInfo == (if rows[i].id == id then note else rows[i].additionalInfo)
  {
    seq(|rows|, i requires 0 <= i < |rows| => if rows[i].id == id then rows[i].(additionalInfo := note) else rows[i])
  }

  /** Selects the join rows of extension `ext`. */
  function OfExtension(ext: nat): JoinRow -> bool
  {
    (row: JoinRow) => row.extension == ext
  }

  /** Selects the join rows pointing at catalog row `id`. */
  function OnTarget(id: nat): JoinRow -> bool
  {
    (row: JoinRow) => row.target == id
  }

  /** Selects the join row with id `id`. */
  function HasRowId(id: nat): JoinRow -> bool
  {
    (row: JoinRow) => row.id == id
  }

  /** The join rows of one extension, in table order. */
  function RowsOf(rows: seq<JoinRow>, ext: nat): seq<JoinRow>
  {
    Filter(rows, OfExtension(ext))
  }

  /** The catalog rows that `rows` point at, one per join row and in the same order. */
  function Resolve(rows: seq<JoinRow>, table: map<nat, Entry>): (r: seq<Entry>)
    requires forall row :: row in rows ==> row.target in table
    ensures |r| == |rows|
    ensures forall i :: 0 <= i < |rows| ==> r[i] == table[rows[i].target]
  {
    seq(|rows|, i requires 0 <= i < |rows| => table[rows[i].target])
  }

  /** No two rows of a join table share an id: `id` is the table's primary key. */
  predicate UniqueIds(rows: seq<JoinRow>)
  {
    forall i, j :: 0 <= i < j < |rows| ==> rows[i].id != rows[j].id
  }

  /** Selecting rows of a table keeps its ids unique. */
  lemma {:induction false} FilterUniqueIds(rows: seq<JoinRow>, keep: JoinRow -> bool)
    requires UniqueIds(rows)
    ensures UniqueIds(Filter(rows, keep))
  {
    if rows != [] {
      var rest := Filter(rows[1..], keep);
      FilterUniqueIds(rows[1..], keep);
      if keep(rows[0]) {
        forall x | x in rest ensures x.id != rows[0].id {
          var k :| 0 <= k < |rows[1..]| && rows[1..][k] == x;
          assert rows[k + 1] == x;
        }
        var r := [rows[0]] + rest;
        forall i, j | 0 <= i < j < |r| ensures r[i].id != r[j].id {
          if i > 0 {
            assert r[i] == rest[i - 1] && r[j] == rest[j - 1];
          } else {
            assert r[j] in rest;
          }
        }
      }
    }
  }

  /** A row whose id exceeds every id of a table can be appended to it. */
  lemma AppendUniqueIds(rows: seq<JoinRow>, row: JoinRow)
    requires UniqueIds(rows)
    requires forall r :: r in rows ==> r.id < row.id
    ensures UniqueIds(rows + [row])
  {
    var all := rows + [row];
    forall i, j | 0 <= i < j < |all| ensures all[i].id != all[j].id {
      if j == |rows| {
        assert all[i] in rows;
      }
    }
  }

  /**
   * Deleting the one row with id `id` shortens the table by one and leaves
   * the links of every extension other than that row's own unchanged.
   */
  lemma {:induction false} RemoveOneRow(rows: seq<JoinRow>, k: nat, other: nat)
    requires UniqueIds(rows)
    requires k < |rows|
    ensures |Filter(rows, Not(HasRowId(rows[k].id)))| == |rows| - 1
    ensures other != rows[k].extension ==>
      RowsOf(Filter(rows, Not(HasRowId(rows[k].id))), other) == RowsOf(rows, other)
  {
    var id := rows[k].id;
    if k == 0 {
      forall x | x in rows[1..] ensures Not(HasRowId(id))(x) {
        var m :| 0 <= m < |rows[1..]| && rows[1..][m] == x;
        assert rows[m + 1] == x;
      }
      FilterKeepsAll(rows[1..], Not(HasRowId(id)));
    } else {
      assert rows[1..][k - 1] == rows[k];
      assert UniqueIds(rows[1..]);
      RemoveOneRow(rows[1..], k - 1, other);
    }
    if other != rows[k].extension {
      FilterCommutes(rows, Not(HasRowId(id)), OfExtension(other));
      forall x | x in RowsOf(rows, other) ensures Not(HasRowId(id))(x) {
        var m :| 0 <= m < |rows| && rows[m] == x;
        assert m == k || rows[m].id != rows[k].id;
      }
      FilterKeepsAll(RowsOf(rows, other), Not(HasRowId(id)));
    }
  }

  /** Two catalog tables that agree on every target resolve the same rows alike. */
  lemma ResolveAgrees(rows: seq<JoinRow>, table1: map<nat, Entry>, table2: map<nat, Entry>)
    requires forall row :: row in rows ==> row.target in table1 && row.target in table2
    requires forall row :: row in rows ==> table1[row.target] == table2[row.target]
    ensures Resolve(rows, table1) == Resolve(rows, table2)
  {
    forall i | 0 <= i < |rows| ensures Resolve(rows, table1)[i] == Resolve(rows, table2)[i] {
      assert rows[i] in rows;
    }
  }

  /**
   * After deleting catalog row `id`, an extension's collection is shorter by
   * exactly its links to `id`, and unchanged when it had none.
   */
  lemma DeleteEntryCollection(rows: seq<JoinRow>, table: map<nat, Entry>, id: nat, ext: nat)
    requires forall row :: row in rows ==> row.target in table
    ensures forall row :: row in RowsOf(Filter(rows, Not(OnTarget(id))), ext) ==> row.target in table - {id}
    ensures |Resolve(RowsOf(Filter(rows, Not(OnTarget(id))), ext), table - {id})|
         == |RowsOf(rows, ext)| - |Filter(RowsOf(rows, ext), OnTarget(id))|
    ensures (forall row :: row in RowsOf(rows, ext) ==> row.target != id) ==>
      Resolve(RowsOf(Filter(rows, Not(OnTarget(id))), ext), table - {id}) == Resolve(RowsOf(rows, ext), table)
  {
    var mine := RowsOf(rows, ext);
    var kept := RowsOf(Filter(rows, Not(OnTarget(id))), ext);
    assert kept == Filter(mine, Not(OnTarget(id))) by {
      DeleteEntryRows(rows, id, ext);
    }
    assert forall row :: row in kept ==> row.target in table - {id} by {
      assert forall row :: row in mine ==> row in rows;
    }
    assert |kept| == |mine| - |Filter(mine, OnTarget(id))| by {
      FilterPartition(mine, OnTarget(id));
    }
    if forall row :: row in mine ==> row.target != id {
      FilterKeepsAll(mine, Not(OnTarget(id)));
      assert forall row :: row in mine ==> row.target in table by {
        assert forall row :: row in mine ==> row in rows;
      }
      ResolveAgrees(mine, table - {id}, table);
    }
  }

  /** What the cascade of deleting catalog row `id` does to one join table and its collections. */
  lemma DeleteEntryTable(rows: seq<JoinRow>, table: map<nat, Entry>, id: nat)
    requires forall row :: row in rows ==> row.target in table
    ensures |Filter(rows, Not(OnTarget(id)))| == |rows| - |Filter(rows, OnTarget(id))|
    ensures IsSubsequence(Filter(rows, Not(OnTarget(id))), rows)
    ensures forall ext :: RowsOf(Filter(rows, Not(OnTarget(id))), ext) == Filter(RowsOf(rows, ext), Not(OnTarget(id)))
    ensures forall ext :: forall row :: row in RowsOf(Filter(rows, Not(OnTarget(id))), ext) ==> row.target in table - {id}
    ensures forall ext ::
      |Resolve(RowsOf(Filter(rows, Not(OnTarget(id))), ext), table - {id})| == |RowsOf(rows, ext)| - |Filter(RowsOf(rows, ext), OnTarget(id))|
    ensures forall ext :: (forall row :: row in RowsOf(rows, ext) ==> row.target != id) ==>
      Resolve(RowsOf(Filter(rows, Not(OnTarget(id))), ext), table - {id}) == Resolve(RowsOf(rows, ext), table)
  {
    FilterPartition(rows, OnTarget(id));
    FilterIsSubsequence(rows, Not(OnTarget(id)));
    forall ext ensures RowsOf(Filter(rows, Not(OnTarget(id))), ext) == Filter(RowsOf(rows, ext), Not(OnTarget(id))) {
      DeleteEntryRows(rows, id, ext);
    }
    forall ext {
      DeleteEntryCollection(rows, table, id, ext);
    }
  }

  /**
   * Cascading the deletion of catalog row `id` acts on every extension's
   * links alone: each extension loses exactly its links to `id`.
   */
  lemma {:induction false} DeleteEntryRows(rows: seq<JoinRow>, id: nat, ext: nat)
    ensures RowsOf(Filter(rows, Not(OnTarget(id))), ext) == Filter(RowsOf(rows, ext), Not(OnTarget(id)))
  {
    FilterCommutes(rows, Not(OnTarget(id)), OfExtension(ext));
  }

  /**
   * Cascading the deletion of extension `ext` empties its own links and leaves
   * every other extension's links as they were, order included.
   */
  lemma {:induction false} DeleteExtensionRows(rows: seq<JoinRow>, ext: nat, other: nat)
    ensures RowsOf(Filter(rows, Not(OfExtension(ext))), other)
         == if other == ext then [] else RowsOf(rows, other)
  {
    FilterCommutes(rows, Not(OfExtension(ext)), OfExtension(other));
    if other == ext {
      FilterDropsAll(RowsOf(rows, other), Not(OfExtension(ext)));
    } else {
      FilterKeepsAll(RowsOf(rows, other), Not(OfExtension(ext)));
    }
  }

  /**
   * What an extension's collection yields depends only on which catalog rows
   * its join rows point at: row ids and `additional_info` play no part.
   */
  lemma {:induction false} CollectionIgnoresNotes(rows1: seq<JoinRow>, rows2: seq<JoinRow>, table: map<nat, Entry>, ext: nat)
    requires |rows1| == |rows2|
    requires forall i :: 0 <= i < |rows1| ==>
               rows1[i].extension == rows2[i].extension && rows1[i].target == rows2[i].target
    requires forall row :: row in rows1 ==> row.target in table
    requires forall row :: row in rows2 ==> row.target in table
    ensures Resolve(RowsOf(rows1, ext), table) == Resolve(RowsOf(rows2, ext), table)
  {
    if rows1 != [] {
      CollectionIgnoresNotes(rows1[1..], rows2[1..], table, ext);
      assert rows1 == [rows1[0]] + rows1[1..];
      assert rows2 == [rows2[0]] + rows2[1..];
    }
  }

  class SeoStore {
    /** The choice sets of the three key columns, fixed for the life of the process. */
    const metaTagNames: set<string>
    const ogPropertyNames: set<string>
    const twitterCardProperties: set<string>

    /** Catalog rows by id. */
    var catalog: ByCategory<map<nat, Entry>>
    /** Ids of the page extensions. */
    var extensions: set<nat>
    /** The three join tables, rows in table order. */
    var joins: ByCategory<seq<JoinRow>>
    /** Next id the store hands out (ids are never reused). */
    var nextId: nat

    function Choices(c: Category): set<string>
      reads this
    {
      match c
      case MetaTags => metaTagNames
      case OpenGraph => ogPropertyNames
      case TwitterCard => twitterCardProperties
    }

    /** Every catalog row belongs to its catalog and passes validation. */
    ghost predicate ValidCatalog(c: Category)
      reads this
    {
      forall id :: id in catalog.Get(c) ==>
        id < nextId && catalog.Get(c)[id].Category() == c && ValidEntry(catalog.Get(c)[id], Choices(c))
    }

    /** Every join row points at an existing extension and an existing catalog row; row ids are unique. */
    ghost predicate ValidJoins(c: Category)
      reads this
    {
      && (forall row :: row in joins.Get(c) ==>
            row.id < nextId && row.extension in extensions && row.target in catalog.Get(c) &&
            CleanNote(row.additionalInfo).None?)
      && UniqueIds(joins.Get(c))
    }

    ghost predicate Valid()
      reads this
    {
      && (forall ext :: ext in extensions ==> ext < nextId)
      && (forall c :: ValidCatalog(c))
      && (forall c :: ValidJoins(c))
    }

    /** The store invariant, read at one catalog. */
    lemma ValidAt(c: Category)
      requires Valid()
      ensures ValidCatalog(c) && ValidJoins(c)
    {
    }

    /** `extension.<collection>.all()`: the catalog rows extension `ext` links, in join-table order. */
    function Related(c: Category, ext: nat): (r: seq<Entry>)
      reads this
      requires Valid()
      ensures forall i :: 0 <= i < |r| ==> r[i].Category() == c
    {
      ValidAt(c);
      Resolve(RowsOf(joins.Get(c), ext), catalog.Get(c))
    }

    /** What `get_seo_html` returns for extension `ext` in the current state. */
    function SeoHtml(ext: nat): string
      reads this
      requires Valid()
    {
      Render.SeoHtml(Related(MetaTags, ext), Related(OpenGraph, ext), Related(TwitterCard, ext))
    }

    constructor (metaTagNames: set<string>, ogPropertyNames: set<string>, twitterCardProperties: set<string>)
      ensures Valid()
      ensures this.metaTagNames == metaTagNames && this.ogPropertyNames == ogPropertyNames
      ensures this.twitterCardProperties == twitterCardProperties
      ensures catalog == ByCategory(map[], map[], map[]) && extensions == {}
      ensures joins == ByCategory([], [], [])
    {
      this.metaTagNames := metaTagNames;
      this.ogPropertyNames := ogPropertyNames;
      this.twitterCardProperties := twitterCardProperties;
      catalog := ByCategory(map[], map[], map[]);
      extensions := {};
      joins := ByCategory([], [], []);
      nextId := 0;
    }

    /**
     * Saves a new catalog row after validating it; a row that fails
     * validation is reported and nothing is stored.
     */
    method CreateEntry(e: Entry) returns (r: Result<nat, seq<FieldError>>)
      requires Valid()
      modifies this
      ensures Valid()
      ensures extensions == old(extensions) && joins == old(joins)
      ensures Validate(e, Choices(e.Category())) != [] ==>
        r == Err(Validate(e, Choices(e.Category()))) && catalog == old(catalog)
      ensures Validate(e, Choices(e.Category())) == [] ==>
        && r.Ok? && r.value !in old(catalog.Get(e.Category()))
        && catalog == old(catalog).Set(e.Category(), old(catalog.Get(e.Category()))[r.value := e])
    {
      var c := e.Category();
      var errs := Validate(e, Choices(c));
      if errs != [] {
        return Err(errs);
      }
      ValidAt(c);
      var id := nextId;
      catalog := catalog.Set(c, catalog.Get(c)[id := e]);
      nextId := nextId + 1;
      r := Ok(id);
      forall d ensures ValidCatalog(d) && ValidJoins(d) {
        assert old(ValidCatalog(d)) && old(ValidJoins(d));
      }
    }

    /** Attaches a new, empty SEO extension to a page. */
    method CreateExtension() returns (ext: nat)
      requires Valid()
      modifies this
      ensures Valid()
      ensures ext !in old(extensions) && extensions == old(extensions) + {ext}
      ensures catalog == old(catalog) && joins == old(joins)
      ensures forall c :: Related(c, ext) == []
    {
      ext := nextId;
      extensions := extensions + {ext};
      nextId := nextId + 1;
      forall d ensures ValidCatalog(d) && ValidJoins(d) && forall row :: row in joins.Get(d) ==> row.extension != ext {
        assert old(ValidCatalog(d)) && old(ValidJoins(d));
      }
      forall c ensures Related(c, ext) == [] {
        FilterDropsAll(joins.Get(c), OfExtension(ext));
      }
    }

    /**
     * Adds an inline join row at the end of extension `ext`'s collection for
     * catalog `c`. A row that fails validation is reported with every failing
     * field and nothing is stored.
     */
    method AddLink(c: Category, ext: nat, target: nat, note: Option<string>) returns (r: Result<nat, seq<LinkError>>)
      requires Valid()
      modifies this
      ensures Valid()
      ensures catalog == old(catalog) && extensions == old(extensions)
      ensures r.Err? <==> ext !in extensions || target !in catalog.Get(c) || CleanNote(note).Some?
      ensures r.Err? ==> r.error == LinkErrors(ext in extensions, target in catalog.Get(c), note)
      ensures r.Err? ==> joins == old(joins)
      ensures r.Ok? ==> forall row :: row in old(joins.Get(c)) ==> row.id != r.value
      ensures r.Ok? ==> joins == old(joins).Set(c, old(joins.Get(c)) + [JoinRow(r.value, ext, target, note)])
      ensures r.Ok? ==> Related(c, ext) == old(Related(c, ext)) + [catalog.Get(c)[target]]
    {
      var errs := LinkErrors(ext in extensions, target in catalog.Get(c), note);
      if errs != [] {
        return Err(errs);
      }
      ValidAt(c);
      var row := JoinRow(nextId, ext, target, note);
      ghost var before := joins.Get(c);
      joins := joins.Set(c, joins.Get(c) + [row]);
      nextId := nextId + 1;
      r := Ok(row.id);
      forall d ensures ValidCatalog(d) && ValidJoins(d) {
        assert old(ValidCatalog(d)) && old(ValidJoins(d));
        if d == c {
          AppendUniqueIds(before, row);
        }
      }
      FilterAppend(before, row, OfExtension(ext));
      ResolveAppend(RowsOf(before, ext), row, catalog.Get(c));
    }

    /**
     * Edits the note of an inline join row in place: the row is looked up
     * first, then the note is validated. The note is never rendered, so every
     * page's collections and block stay as they were.
     */
    method UpdateNote(c: Category, rowId: nat, note: Option<string>) returns (r: Result<(), NoteError>)
      requires Valid()
      modifies this
      ensures Valid()
      ensures catalog == old(catalog) && extensions == old(extensions)
      ensures (forall row :: row in old(joins.Get(c)) ==> row.id != rowId) ==> r == Err(UnknownJoinRow)
      ensures (exists row :: row in old(joins.Get(c)) && row.id == rowId) && CleanNote(note).Some? ==>
        r == Err(BadNote(CleanNote(note).value))
      ensures r.Ok? <==> (exists row :: row in old(joins.Get(c)) && row.id == rowId) && CleanNote(note).None?
      ensures r.Err? ==> joins == old(joins)
      ensures r.Ok? ==> joins == old(joins).Set(c, WithNote(old(joins.Get(c)), rowId, note))
      ensures forall d, ext :: Related(d, ext) == old(Related(d, ext))
      ensures forall ext :: SeoHtml(ext) == old(SeoHtml(ext))
    {
      if !(exists row :: row in joins.Get(c) && row.id == rowId) {
        return Err(UnknownJoinRow);
      }
      var noteError := CleanNote(note);
      if noteError.Some? {
        return Err(BadNote(noteError.value));
      }
      r := Ok(());
      ValidAt(c);
      ghost var before := joins.Get(c);
      joins := joins.Set(c, WithNote(joins.Get(c), rowId, note));
      forall d ensures ValidCatalog(d) && ValidJoins(d) {
        if d == c {
          WithNoteRows(before, rowId, note);
          assert old(ValidJoins(c));
        } else {
          assert old(ValidCatalog(d)) && old(ValidJoins(d));
        }
      }
      forall ext ensures Related(c, ext) == old(Related(c, ext)) {
        CollectionIgnoresNotes(joins.Get(c), before, catalog.Get(c), ext);
      }
    }

    /**
     * Saves an edited catalog row in place under its own id, after validating
     * it. Join rows keep pointing at it, so every page linking it now renders
     * the new key and content at the same positions.
     */
    method UpdateEntry(id: nat, e: Entry) returns (r: Result<(), UpdateError>)
      requires Valid()
      modifies this
      ensures Valid()
      ensures extensions == old(extensions) && joins == old(joins)
      ensures id !in old(catalog.Get(e.Category())) ==> r == Err(UnknownRow)
      ensures id in old(catalog.Get(e.Category())) && Validate(e, Choices(e.Category())) != [] ==>
        r == Err(Invalid(Validate(e, Choices(e.Category()))))
      ensures r.Err? ==> catalog == old(catalog)
      ensures r.Ok? <==> id in old(catalog.Get(e.Category())) && Validate(e, Choices(e.Category())) == []
      ensures r.Ok? ==> catalog == old(catalog).Set(e.Category(), old(catalog.Get(e.Category()))[id := e])
      ensures r.Ok? ==> forall ext :: |Related(e.Category(), ext)| == |old(Related(e.Category(), ext))|
      ensures r.Ok? ==> forall ext, i :: 0 <= i < |Related(e.Category(), ext)| ==>
        Related(e.Category(), ext)[i]
          == if RowsOf(joins.Get(e.Category()), ext)[i].target == id then e else old(Related(e.Category(), ext))[i]
      ensures r.Ok? ==> forall d, ext :: d != e.Category() ==> Related(d, ext) == old(Related(d, ext))
    {
      var c := e.Category();
      if id !in catalog.Get(c) {
        return Err(UnknownRow);
      }
      var errs := Validate(e, Choices(c));
      if errs != [] {
        return Err(Invalid(errs));
      }
      ValidAt(c);
      catalog := catalog.Set(c, catalog.Get(c)[id := e]);
      r := Ok(());
      forall d ensures ValidCatalog(d) && ValidJoins(d) {
        assert old(ValidCatalog(d)) && old(ValidJoins(d));
      }
    }

    /** Deletes one inline join row; the catalog row it pointed at stays. */
    method RemoveLink(c: Category, rowId: nat)
      requires Valid()
      modifies this
      ensures Valid()
      ensures catalog == old(catalog) && extensions == old(extensions)
      ensures joins == old(joins).Set(c, Filter(old(joins.Get(c)), Not(HasRowId(rowId))))
      ensures forall row :: row in old(joins.Get(c)) && row.id == rowId ==>
        && |joins.Get(c)| == |old(joins.Get(c))| - 1
        && forall other :: other != row.extension ==> Related(c, other) == old(Related(c, other))
    {
      ValidAt(c);
      ghost var before := joins.Get(c);
      joins := joins.Set(c, Filter(joins.Get(c), Not(HasRowId(rowId))));
      forall d ensures ValidCatalog(d) && ValidJoins(d) {
        assert old(ValidCatalog(d)) && old(ValidJoins(d));
        if d == c {
          FilterUniqueIds(before, Not(HasRowId(rowId)));
        }
      }
      forall row | row in before && row.id == rowId
        ensures |joins.Get(c)| == |before| - 1
        ensures forall other :: other != row.extension ==> Related(c, other) == old(Related(c, other))
      {
        var k :| 0 <= k < |before| && before[k] == row;
        RemoveOneRow(before, k, row.extension);
        forall other | other != row.extension ensures Related(c, other) == old(Related(c, other)) {
          RemoveOneRow(before, k, other);
        }
      }
    }

    /**
     * Deletes catalog row `id` of catalog `c`; the cascade removes every join
     * row, of every extension, that points at it, and nothing else.
     */
    method DeleteEntry(c: Category, id: nat)
      requires Valid()
      modifies this
      ensures Valid()
      ensures extensions == old(extensions)
      ensures catalog == old(catalog).Set(c, old(catalog.Get(c)) - {id})
      ensures joins == old(joins).Set(c, Filter(old(joins.Get(c)), Not(OnTarget(id))))
      ensures |joins.Get(c)| == |old(joins.Get(c))| - |Filter(old(joins.Get(c)), OnTarget(id))|
      ensures IsSubsequence(joins.Get(c), old(joins.Get(c)))
      ensures forall ext :: RowsOf(joins.Get(c), ext) == Filter(old(RowsOf(joins.Get(c), ext)), Not(OnTarget(id)))
      ensures forall ext :: |Related(c, ext)| == |old(Related(c, ext))| - |Filter(old(RowsOf(joins.Get(c), ext)), OnTarget(id))|
      ensures forall ext :: (forall row :: row in old(RowsOf(joins.Get(c), ext)) ==> row.target != id) ==>
        Related(c, ext) == old(Related(c, ext))
    {
      ValidAt(c);
      ghost var before := joins.Get(c);
      ghost var table := catalog.Get(c);
      catalog := catalog.Set(c, catalog.Get(c) - {id});
      joins := joins.Set(c, Filter(joins.Get(c), Not(OnTarget(id))));
      forall d ensures ValidCatalog(d) && ValidJoins(d) {
        if d == c {
          assert old(ValidJoins(c));
          FilterUniqueIds(before, Not(OnTarget(id)));
        } else {
          assert old(ValidCatalog(d)) && old(ValidJoins(d));
        }
      }
      DeleteEntryTable(before, table, id);
    }

    /**
     * Deletes extension `ext`; the cascade removes all of its join rows in the
     * three join tables. Catalog rows and other extensions' links stay.
     */
    method DeleteExtension(ext: nat)
      requires Valid()
      modifies this
      ensures Valid()
      ensures extensions == old(extensions) - {ext}
      ensures catalog == old(catalog)
      ensures forall c :: joins.Get(c) == Filter(old(joins.Get(c)), Not(OfExtension(ext)))
      ensures forall c :: Related(c, ext) == []
      ensures forall c, other :: other != ext ==> Related(c, other) == old(Related(c, other))
      ensures forall other :: other != ext ==> SeoHtml(other) == old(SeoHtml(other))
    {
      ghost var before := joins;
      joins := ByCategory(
        Filter(joins.metaTags, Not(OfExtension(ext))),
        Filter(joins.openGraph, Not(OfExtension(ext))),
        Filter(joins.twitterCard, Not(OfExtension(ext))));
      extensions := extensions - {ext};
      assert forall c :: joins.Get(c) == Filter(before.Get(c), Not(OfExtension(ext)));
      forall d ensures ValidCatalog(d) && ValidJoins(d) {
        assert old(ValidCatalog(d)) && old(ValidJoins(d));
        FilterUniqueIds(before.Get(d), Not(OfExtension(ext)));
      }
      forall c, other ensures RowsOf(joins.Get(c), other) == if other == ext then [] else RowsOf(before.Get(c), other) {
        DeleteExtensionRows(before.Get(c), ext, other);
      }
    }

    /**
     * `get_seo_html`: one line per linked meta tag, then per Open Graph
     * entry, then per Twitter Card entry, each formatted in place; the lines
     * are joined, indented and wrapped in newlines.
     */
    method GetSeoHtml(ext: nat) returns (html: string)
      requires Valid()
      ensures html == SeoHtml(ext)
    {
      var lines: seq<string> := [];
      var metaTags := Related(MetaTags, ext);
      for i := 0 to |metaTags|
        invariant Render.RendersAs(lines, metaTags[..i])
      {
        var meta := metaTags[i];
        Render.RendersAsAppend(lines, metaTags[..i], meta);
        TakeOneMore([], metaTags, i);
        lines := lines + ["<meta name=\"" + meta.name + "\" content=\"" + meta.content + "\">"];
      }
      assert metaTags[..|metaTags|] == metaTags;
      var ogMeta := Related(OpenGraph, ext);
      for i := 0 to |ogMeta|
        invariant Render.RendersAs(lines, metaTags + ogMeta[..i])
      {
        var og := ogMeta[i];
        Render.RendersAsAppend(lines, metaTags + ogMeta[..i], og);
        TakeOneMore(metaTags, ogMeta, i);
        lines := lines + ["<meta property=\"og:" + og.property + "\" content=\"" + og.content + "\">"];
      }
      assert ogMeta[..|ogMeta|] == ogMeta;
      var twitterMeta := Related(TwitterCard, ext);
      for i := 0 to |twitterMeta|
        invariant Render.RendersAs(lines, metaTags + ogMeta + twitterMeta[..i])
      {
        var twitter := twitterMeta[i];
        Render.RendersAsAppend(lines, metaTags + ogMeta + twitterMeta[..i], twitter);
        TakeOneMore(metaTags + ogMeta, twitterMeta, i);
        lines := lines + ["<meta name=\"twitter:" + twitter.name + "\" content=\"" + twitter.content + "\">"];
      }
      assert twitterMeta[..|twitterMeta|] == twitterMeta;
      Render.RendersAsLines(lines, metaTags + ogMeta + twitterMeta);
      var prettyHtml := PyText.Indent(PyText.Join("\n", lines), Render.Indentation);
      html := "\n" + prettyHtml + "\n";
    }
  }

  /** Each row of `WithNote` is a row of `rows`, or one with only its note replaced. */
  lemma WithNoteRows(rows: seq<JoinRow>, id: nat, note: Option<string>)
    ensures forall row :: row in WithNote(rows, id, note) ==>
      row in rows || exists r :: r in rows && row == r.(additionalInfo := note)
  {
    var updated := WithNote(rows, id, note);
    forall row | row in updated ensures row in rows || exists r :: r in rows && row == r.(additionalInfo := note) {
      var i :| 0 <= i < |updated| && updated[i] == row;
      assert rows[i] in rows;
    }
  }

  /** Resolving one more join row appends the catalog row it points at. */
  lemma ResolveAppend(rows: seq<JoinRow>, row: JoinRow, table: map<nat, Entry>)
    requires forall r :: r in rows ==> r.target in table
    requires row.target in table
    ensures Resolve(rows + [row], table) == Resolve(rows, table) + [table[row.target]]
  {
  }

  /** Appending a row extends exactly the collection of the row's extension. */
  lemma {:induction false} FilterAppend(rows: seq<JoinRow>, row: JoinRow, keep: JoinRow -> bool)
    ensures Filter(rows + [row], keep) == Filter(rows, keep) + (if keep(row) then [row] else [])
  {
    if rows == [] {
      assert [] + [row] == [row];
    } else {
      assert (rows + [row])[1..] == rows[1..] + [row];
      FilterAppend(rows[1..], row, keep);
    }
  }
}
