# Revision queries over an audit log, modelled in Dafny

This project models the revision query engine of Spring Data Envers. The engine
answers four questions about an audited entity from what the Envers audit reader
reports:

- its last change revision;
- one given revision;
- its whole history, sorted ascending;
- one page of that history.

It also models two small companions. One is the sort-key classification of the
repository interface. The other is the metadata adapter for Envers' built-in
revision entity.

The Envers audit reader is foreign code. It becomes an immutable value,
`AuditStore.Store`, which holds:

- `revs`: the revision numbers listed per entity id;
- `snap`: the snapshot per (id, revision number);
- `markers`: the revision marker per revision number;
- `query`: the result of running an audit query, as an uninterpreted function of the query's value.

`Store.Valid()` says what the engine relies on. Every listed revision has a marker
that records the same number. A query returns at most `maxResults` numbers, each
listed for the queried id. A query ordered by the revision number alone returns
the window of the id's list that its first result and row limit select, taken
from the front for an ascending order and from the back for a descending one.
What other orderings select is left to the store. `Store.Ascending()` says each per-id list rises
strictly, as Envers reports it.

Files and modules:

- `Wrappers.dfy`: `Option` (Java's null), `Result` and the `IllegalArgument` exception.
- `DefaultRevisionMetadata.dfy` (module `DefaultMetadata`): the built-in revision entity and its metadata adapter.
  The adapter is an immutable datatype, so the wrapped entity is fixed once it is built.
- `History.dfy`: markers, uniform revision metadata, `Revision`, `Revisions`, `SortOrder`, `Pageable`, `Page`.
- `SortProperty.dfy`: the two prefix constants and the `SortProperty` enum with `From`.
- `AuditStore.dfy`: the store, ordering clauses, and the mutable `AuditQuery` builder.
- `RevisionRepositoryImpl.dfy` (module `EnversRevisionRepositoryImpl`): the engine.

Shape of the engine:

- The straight-line lookups are functions: `FindLastChangeRevision`, `FindRevision`, `GetEntityForRevision` and `GetRevisionMetadata`.
- The loops are methods with invariants:
  - `SortProperty.From` scans the enum values and stops at the first match.
  - `AddSort` appends clauses to the mutable query.
  - `GetEntitiesForRevisions` fills a number-to-snapshot map.
  - `ToRevisions` visits the map's entries in an unspecified order and then sorts an array in place (an insertion sort).
- Each method is specified through `ClausesFor`, `AssembledFrom` and lemmas about them.

The model follows the code as written, including these behaviours a reader might not expect:

- A descending sort request still returns its page ascending, because assembly re-sorts it
  (`EnversRevisionRepositoryImpl.java:151`, `:252`). Paging through descending
  therefore gives the newest block of revisions first, each block listed oldest first.
- An offset past the end returns a total of 0, not the real count (`:141-143`). An offset equal to the count is not short-circuited.
- Property sort keys with the `revisionProperty.` and `entityProperty.` prefixes are honoured. They are neither rejected nor ignored.
- `findRevision` makes no check that the store returned at most one row.

## Model

| member | source | states |
|---|---|---|
| `DefaultMetadata.Create` | src/main/java/org/springframework/data/envers/repository/support/DefaultRevisionMetadata.java:38-42 | A null entity is rejected. Any other entity is wrapped unchanged. |
| `DefaultMetadata.DefaultRevisionMetadata.GetRevisionNumber` | src/main/java/org/springframework/data/envers/repository/support/DefaultRevisionMetadata.java:48-50 | The revision number is the wrapped entity's id. |
| `DefaultMetadata.DefaultRevisionMetadata.GetRevisionDate` | src/main/java/org/springframework/data/envers/repository/support/DefaultRevisionMetadata.java:56-58 | The revision date is the instant of the entity's epoch-millisecond timestamp. |
| `DefaultMetadata.DefaultRevisionMetadata.GetDelegate` | src/main/java/org/springframework/data/envers/repository/support/DefaultRevisionMetadata.java:65-67 | Gives back the very entity that was wrapped. |
| `DefaultMetadata.CreateThenRead` | src/main/java/org/springframework/data/envers/repository/support/DefaultRevisionMetadata.java:38-67 | Round trip: building from an entity and reading back gives its id, its timestamp as the date, and the entity itself. |
| `SortProperty.SortProperty.OutwardFacing` | src/main/java/org/springframework/data/envers/repository/support/EnversRevisionRepository.java:51-66 | `REVISION_NUMBER` is requested as "revisionNumber" and `DYNAMIC_PROPERTY` as "", in both directions. |
| `SortProperty.From` | src/main/java/org/springframework/data/envers/repository/support/EnversRevisionRepository.java:68-77 | Returns `REVISION_NUMBER` exactly when the property equals "revisionNumber" (case-sensitive), and `DYNAMIC_PROPERTY` for every other string, "" included. It never fails. |
| `EnversRevisionRepositoryImpl.AuditPropertyFor` | src/main/java/org/springframework/data/envers/repository/support/EnversRevisionRepositoryImpl.java:169-185 | The switch on the sort kind yields exactly the clause `ClauseFor` assigns to the order, or none. |
| `EnversRevisionRepositoryImpl.AddSort` | src/main/java/org/springframework/data/envers/repository/support/EnversRevisionRepositoryImpl.java:164-193 | Returns the same query. It appends `ClausesFor` of the sort orders after the existing clauses. A null query, a null page request or a missing sort leaves the query unchanged. |
| `EnversRevisionRepositoryImpl.ClausesForAtMostOnePerOrder` | src/main/java/org/springframework/data/envers/repository/support/EnversRevisionRepositoryImpl.java:168-189 | Each sort order adds at most one clause. |
| `EnversRevisionRepositoryImpl.ClausesForAppend` | src/main/java/org/springframework/data/envers/repository/support/EnversRevisionRepositoryImpl.java:168-189 | Orders are walked in sequence: the clauses of `a + b` are the clauses of `a` followed by those of `b`. |
| `EnversRevisionRepositoryImpl.RevisionPropertyOrder` | src/main/java/org/springframework/data/envers/repository/support/EnversRevisionRepositoryImpl.java:178-179 | "revisionProperty." in any letter case, then a name, gives a revision-entity property clause on that name, in the order's direction. |
| `EnversRevisionRepositoryImpl.EntityPropertyOrder` | src/main/java/org/springframework/data/envers/repository/support/EnversRevisionRepositoryImpl.java:180-181 | "entityProperty." in any letter case, then a name, gives an audited-entity property clause on that name, in the order's direction. |
| `EnversRevisionRepositoryImpl.ClauseForSound` | src/main/java/org/springframework/data/envers/repository/support/EnversRevisionRepositoryImpl.java:170-187 | A clause keeps the order's direction. A revision-number clause comes exactly from "revisionNumber". A property clause comes from its prefix (the revision prefix tried first) followed by its name. No clause comes exactly from an order matching none of these, "" included. |
| `EnversRevisionRepositoryImpl.GetRevisionMetadata` | src/main/java/org/springframework/data/envers/repository/support/EnversRevisionRepositoryImpl.java:262-268 | A built-in default marker gets the default adapter. Every other object, null included, gets the annotation-based metadata. The delegate is the object given, and the number is the one the marker records. |
| `EnversRevisionRepositoryImpl.GetEntityForRevision` | src/main/java/org/springframework/data/envers/repository/support/EnversRevisionRepositoryImpl.java:228-237 | Carries the store's snapshot at (id, n) and the metadata of n's marker. With a consistent marker, the revision's number is n. |
| `EnversRevisionRepositoryImpl.FindRevision` | src/main/java/org/springframework/data/envers/repository/support/EnversRevisionRepositoryImpl.java:106-112 | A null id, then a null revision number, is rejected with its message. Otherwise the result is the snapshot and metadata of exactly that number. |
| `EnversRevisionRepositoryImpl.FindLastChangeRevision` | src/main/java/org/springframework/data/envers/repository/support/EnversRevisionRepositoryImpl.java:82-100 | Null exactly when the store lists no revision for the id. Otherwise it is the snapshot and marker metadata of the last listed number. |
| `EnversRevisionRepositoryImpl.LastChangeIsNewest` | src/main/java/org/springframework/data/envers/repository/support/EnversRevisionRepositoryImpl.java:87-93 | With an ascending list, the last change revision's number is listed and no listed number is greater. |
| `EnversRevisionRepositoryImpl.SortRevisions` | src/main/java/org/springframework/data/envers/repository/support/EnversRevisionRepositoryImpl.java:252 | In-place sort: afterwards the array is strictly ascending by revision number and is a permutation of what it held. |
| `EnversRevisionRepositoryImpl.CollectRevisions` | src/main/java/org/springframework/data/envers/repository/support/EnversRevisionRepositoryImpl.java:241-249 | The loop over the map's entries, in any order: one revision per key, with distinct numbers that are exactly the keys, each carrying that entry's snapshot and the metadata of its marker. |
| `EnversRevisionRepositoryImpl.ToRevisions` | src/main/java/org/springframework/data/envers/repository/support/EnversRevisionRepositoryImpl.java:240-254 | One revision per map entry, carrying that entry's snapshot and the metadata of its marker. The numbers are exactly the map's keys, sorted strictly ascending. |
| `EnversRevisionRepositoryImpl.GetEntitiesForRevisions` | src/main/java/org/springframework/data/envers/repository/support/EnversRevisionRepositoryImpl.java:203-218 | The result is `AssembledFrom` the numbers: one revision per distinct number (repeats collapse), carrying its snapshot and marker metadata, sorted strictly ascending. |
| `EnversRevisionRepositoryImpl.FindRevisions` | src/main/java/org/springframework/data/envers/repository/support/EnversRevisionRepositoryImpl.java:118-127 | Empty exactly when the store lists no revision for the id. Otherwise it is the assembly of every listed number. |
| `EnversRevisionRepositoryImpl.FindRevisionsPage` | src/main/java/org/springframework/data/envers/repository/support/EnversRevisionRepositoryImpl.java:133-154 | An offset beyond the listed count gives empty content and total 0. Otherwise the total is the listed count, and the content is the ascending assembly of what the page's query returned. The query has the offset as first result, the page size as maximum and the requested clauses. The content never exceeds the page size. `RevisionNumberPage` says which revisions a page ordered by revision number holds. |
| `AuditStore.Window` | src/main/java/org/springframework/data/envers/repository/support/EnversRevisionRepositoryImpl.java:147-149 | The first-result and row-limit settings select at most the limit many numbers, and none when the first result is past the end. |
| `EnversRevisionRepositoryImpl.PageNumbers` | src/main/java/org/springframework/data/envers/repository/support/EnversRevisionRepositoryImpl.java:147-151 | The numbers a revision-number page shows: for an ascending order the store's window; for a descending order the window of the reversed list, reversed back, so listed in the list's own order (ascending for an ascending list). Never more than the page size. |
| `EnversRevisionRepositoryImpl.AscendingMatchesNumbers` | src/main/java/org/springframework/data/envers/repository/support/EnversRevisionRepositoryImpl.java:240-254 | A strictly ascending assembly whose numbers are those of a strictly ascending list carries exactly that list, position by position. |
| `EnversRevisionRepositoryImpl.SortByRevisionNumber` | src/main/java/org/springframework/data/envers/repository/support/EnversRevisionRepositoryImpl.java:168-189 | A page request sorted by "revisionNumber" alone, in either direction, adds exactly one revision-number clause in that direction. |
| `EnversRevisionRepositoryImpl.RevisionNumberPage` | src/main/java/org/springframework/data/envers/repository/support/EnversRevisionRepositoryImpl.java:133-154 | For a page whose sort contributes exactly one revision-number clause (any orders that contribute nothing, such as an unprefixed property, may accompany it), in either direction, the content is the revision at each of `PageNumbers`, in that order, and nothing else. |
| `EnversRevisionRepositoryImpl.PagesOfThree` | src/main/java/org/springframework/data/envers/repository/support/EnversRevisionRepositoryImpl.java:133-154 | With revisions 1, 2, 3 and two per page: ascending pages show [1, 2] then [3]; descending pages show [2, 3] then [1]; an offset of 3 shows nothing. |
| `EnversRevisionRepositoryImpl.PagesArePrefix` | src/main/java/org/springframework/data/envers/repository/support/EnversRevisionRepositoryImpl.java:141-153 | Ascending pages 0 to k-1 of one size follow on from each other without gap or overlap: together they are the oldest k * size listed numbers, or the whole list once they reach its end. |
| `EnversRevisionRepositoryImpl.DescPagesAreSuffix` | src/main/java/org/springframework/data/envers/repository/support/EnversRevisionRepositoryImpl.java:141-153 | Descending pages 0 to k-1 of one size, read last page first, are the newest k * size listed numbers in ascending order, or the whole list once they reach its end. |
| `EnversRevisionRepositoryImpl.PageContent` | src/main/java/org/springframework/data/envers/repository/support/EnversRevisionRepositoryImpl.java:133-154 | The n-th page of a given size, sorted by "revisionNumber", holds exactly the revisions at its `PageNumbers`, from offset n * size. |
| `EnversRevisionRepositoryImpl.ConcatPages` | src/main/java/org/springframework/data/envers/repository/support/EnversRevisionRepositoryImpl.java:147-151 | Pages holding the revisions at consecutive ascending windows hold, one after the other, the revisions at `Pages`. |
| `EnversRevisionRepositoryImpl.ConcatBackwardPages` | src/main/java/org/springframework/data/envers/repository/support/EnversRevisionRepositoryImpl.java:147-151 | Pages holding the revisions at consecutive mirrored windows hold, read last page first, the revisions at `DescPages`. |
| `EnversRevisionRepositoryImpl.PagesCoverAll` | src/main/java/org/springframework/data/envers/repository/support/EnversRevisionRepositoryImpl.java:141-153 | Pages whose combined span reaches the count hold the whole list, in either direction. |
| `EnversRevisionRepositoryImpl.PagedContents` | src/main/java/org/springframework/data/envers/repository/support/EnversRevisionRepositoryImpl.java:133-154 | The contents of consecutive revision-number pages hold exactly the revisions at those page numbers, in that order. |
| `EnversRevisionRepositoryImpl.AssembledHistory` | src/main/java/org/springframework/data/envers/repository/support/EnversRevisionRepositoryImpl.java:118-126 | With an ascending list, the assembled history is the revision at each listed number, in list order. |
| `EnversRevisionRepositoryImpl.PagingAscendingIsHistory` | src/main/java/org/springframework/data/envers/repository/support/EnversRevisionRepositoryImpl.java:118-154 | Paging ascending by revision number with one page size until the pages cover the count gives, page after page, exactly the history that `FindRevisions` assembles: every revision once, with no gaps. |
| `EnversRevisionRepositoryImpl.PagingDescendingIsHistory` | src/main/java/org/springframework/data/envers/repository/support/EnversRevisionRepositoryImpl.java:118-154 | Paging descending the same way gives the newest block first, each block ascending. Read last page first, the pages are exactly the assembled history. |
| `EnversRevisionRepositoryImpl.AssembledCount` | src/main/java/org/springframework/data/envers/repository/support/EnversRevisionRepositoryImpl.java:207-217 | Assembly yields as many revisions as there are distinct numbers, and never more than the numbers given. |
| `EnversRevisionRepositoryImpl.AssembledUnique` | src/main/java/org/springframework/data/envers/repository/support/EnversRevisionRepositoryImpl.java:240-254 | Any two assemblies of the same numbers are the same list, whatever order the hash map is visited in. |
| `EnversRevisionRepositoryImpl.LatestOfHistory` | src/main/java/org/springframework/data/envers/repository/support/EnversRevisionRepositoryImpl.java:87-126 | With an ascending list, the last element of the whole history is the last change revision. |

## Left out

- The Envers audit reader and audit query engine are left out: `AuditReaderFactory`, `AuditEntity`, `getTargetClassIfProxied`, and how ordering clauses on revision or entity properties are evaluated. `Store.query` is an uninterpreted function, constrained only by `Store.Valid()`.
- The JPA `EntityManager`, the entity type lookup and the `SimpleJpaRepository` superclass are persistence I/O. They are not part of this model. Neither is the constructor's not-null check on its wiring arguments.
- When a revision number has no marker, Envers' `findRevision` throws. The model passes null on to the metadata dispatch instead.
- `AnnotationRevisionMetadata` is not part of this model: it reads annotated fields by reflection. A `CustomMarker` carries those fields' values directly.
- The revision date stays a raw epoch-millisecond value. No time-zone conversion is modelled.
- Revision numbers, offsets and sizes are unbounded integers. Java's 32-bit `int`/`Integer` overflow is not modelled.
- `StartsWithIgnoreCase` folds only the ASCII letters A-Z. Java's full Unicode lower-casing is not modelled.
- `Revision`, `Revisions` and `PageImpl` come from Spring Data Commons, which is not part of this model. They are plain datatypes here, and the re-sort inside `Revisions`' constructor is not modelled.
- Store failures are not modelled. An example is some databases failing to fetch markers for an empty set of numbers, which the paged query can request.
- EnversRevisionRepositoryImpl.FindRevisionsPage: which numbers a page's query returns is pinned down only when the page is ordered by the revision number alone. Requests with no sort, or with several clauses or property clauses, leave the selection to the uninterpreted `Store.query`, because Hibernate evaluates `addOrder`, `setFirstResult` and `setMaxResults` and that code is not part of this model. Its requirement `Store.Valid()` also carries the consistent-marker assumption below.
- EnversRevisionRepositoryImpl.FindLastChangeRevision, EnversRevisionRepositoryImpl.FindRevisions, EnversRevisionRepositoryImpl.FindRevisionsPage: take a non-null id. The Java code passes the id unchecked to Envers' `getRevisions` (`EnversRevisionRepositoryImpl.java:87`, `:122`, `:137`). What Envers does with a null id is foreign code and not part of this model.
- EnversRevisionRepositoryImpl.FindRevisionsPage: takes a non-null page request. In Java a null page request throws a `NullPointerException` at `pageable.getOffset()` (`EnversRevisionRepositoryImpl.java:141`), after the revisions are listed; that exception is not modelled. `AddSort`'s own null check is modelled.
- EnversRevisionRepositoryImpl.ToRevisions: requires every entry's marker to record that entry's number. Java compares metadata revision numbers while sorting: a missing number throws, and a mismatched one gives some other order. Neither case is modelled.
- EnversRevisionRepositoryImpl.GetEntitiesForRevisions, EnversRevisionRepositoryImpl.FindRevisions: require consistent markers for the numbers they assemble, for the same reason.
- `EnversRevisionRepositoryFactoryBean` and `QueryDslWithEnversRevisionRepository` are not part of this model. They are wiring and delegation.
