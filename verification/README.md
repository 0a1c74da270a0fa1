# qlsc, modelled and proved in Dafny

qlsc answers questions over a warehouse. This project models its two linked cores and four smaller ones, and proves what
its documentation and comments promise of them, over every input and every run.

- **Memory** (`src/qlsc/memory.py`). Contexts of many anchors come of one run of hops over the virtual graph, by paged and capped
  reads; a local graph keeps their nodes, with edges derived from columns, and serves them until they expire. A compiled
  question is routed there only if its answer is complete there.
  `Data`, `Recency`, `PagedRead`, `Template`, `Context`, `ContextIs`, `Batch`, `Served`, `Provenance`, `Edges`, `Memory`, `Window`,
  `Remember`, `Linked`, `Lasting`, `Recall`, `Answerable`, `Comparisons`, `Owed`, `Answered`, `MemoryRoute`, `Escapes`.
- **The compiler** (`src/qlsc/compile.py`). A request becomes a plan: join routes that never multiply a fact's rows,
  filters in WHERE or inside aggregates, aggregates that survive a fan-out; and the plan becomes SQL or Cypher that mean
  the same. `Sql`, `Measures`, `Moved`, `From`, `Routes`, `FirstRoutes`, `JoinTree`, `CypherMatch`, `Rendered`, `SameRows`, `Guarded`,
  `CypherExpr`, `CypherMeans`, `MemoryMeans`, `Printing`, `CypherText`, `DerivedMeasures`.
- **The two together**: a question the decision says yes to is answered from memory as its SQL answers from the
  warehouse. `Tables`, `Walked`, `WalkedContext`, `Routed`.
- **Joins** (`src/qlsc/joins.py`): union-find id spaces and the suspect joins. `UnionFind`, `Suspects`.
- **Conversations** (`src/qlsc/converse.py`): facts that supersede one another, and answers given again from memory, as
  state machines whose steps are the database statements of many conversations. `Facts`, `Reuse`.
- **Literal slots** (`parser/qlsc_parse/fingerprint.py`): the parts of a query its shape leaves out, numbered once for every
  text of the shape. `Slots`, `Shapes`.
- **Column lineage** (`parser/qlsc_parse/resolve.py`): the memoised tracer and what its origins mean. `Lineage`, `Depends`,
  `Steering`, `Trails`.

How it is written: what the source computes by changing things step by step is a method or a class here (a batch's run, the
memory store, the paged read, the breadth-first search, union-find, the tracer and its memo, the slot walk), proved against a
specification function; what the source writes as expressions is functions. The specification of a batch is the context one
anchor gets alone (`Context.Alone`, which `ContextIs` says outright); of a recall, the fetch at that moment; of a routed question, the same match over the
warehouse; of a SQL block, rows as bindings of tables to their rows, with SQL's three-valued logic (`Sql.Eval`); of the
Cypher, its own evaluation (`CypherExpr.CyEval`), which differs where Cypher's does.

Values, names, labels, columns and ids are numbered. Strings matter only in `Printing`, as tokens, and in `Shapes`, as the
texts of literals.

## What the code needs, and where it falls short

Each condition below is a hypothesis of a theorem, written so that a caller can check it, with a lemma that shows what goes
wrong without it.

- A recall (`Memory.Config.Lasts`, of a context's record; `Memory.Config.Recallable`, of a label, for all its contexts):
  the context ends before a sweep takes its nodes, and what was seen of its frozen row-policied nodes is seen as long.
  `Lasting.ExactIff` says of any state exactly when a recall is the fetch; `Lasting.LastsExactly` that both halves are
  needed, exactly, in runs where another reader fetches the anchor again and memory is swept;
  `Lasting.SweepTakesHeldNode` and `Lasting.FrozenPoliciedFallsShort` are such runs that end in a recall other than the
  fetch. Contents need no more: readers may have any models.
- Memory's edges: a type is as its nodes' columns make it after a write exactly when the writer's model has it or the write
  leaves it as it was (`Edges.StaysDerivedExactly`, `Edges.EndWrittenWithout`). Whoever writes, no edge is wrong, and a
  context that holds has all of its own (`Linked.WriteKeepsLinked`), which is what a routed question needs.
- A routed question (`MemoryRoute.RouteOk`): conjuncts that, when true, make true what the decision collects from them
  (`Answered.Plain`: a comparison; any conjunct it collects nothing from, NOT IN, IS NOT NULL, IS TRUE and a comparison of
  two columns among them; an AND of such), each label fetched by one read, and only columns memory keeps. Otherwise the decision can say yes to a block whose match in the warehouse
  the context misses: an equality inside an OR (`Escapes.OrEscapes`), a column not kept (`Escapes.UnkeptColumnEscapes`), a
  second relationship to the entity (`Escapes.OtherRelationshipEscapes`), a bound written literal-first, which is right
  exactly when the entity has no admitted fact before the window (`Escapes.LiteralFirstExactly`).
- Cypher for SQL (`SameRows.Fits`): `SameRows.MatchIsWithout` says what the match's rows are for any query so shaped: those
  of the SQL without its unneeded joins; `SameRows.UnneededExactly` when they are the SQL's; `SameRows.KeysAgreeExactly` when a key
  column may be read at its pointing side. `SameRows.DanglingPointerRegroups`, `SameRows.UnneededJoinKeepsRows`,
  `SameRows.InnerFromOptionalKeepsRows`, `SameRows.FilterReadsUnmatched` and `SameRows.NullFilterDropsRows` show each
  condition's failure.
- A truth test (IS TRUE, IS FALSE) is a plain comparison in Cypher: right for its value exactly on operands that are not
  null, and always for its truth (`CypherExpr.TruthTest`); under NOT it drops rows (`CypherMeans.NegatedTruthTestDrops`).
  DATE() of a date, compared with a day, is always unknown (`CypherMeans.DateOfDateUnknown`).
- Text is read back as its tree exactly when looser operands are bracketed (`Printing.ReadsBackExactly`). The translation
  adds no brackets of its own: of SQL bracketed by SQL's precedence, `CypherText.TranslationReadsBack` lists exactly the
  places that are read otherwise (`CypherText.PrintsRight`): a divisor of SAFE_DIVIDE, operands that print as a
  conjunction or a comparison. A derived measure's second operand is printed bare: `DerivedMeasures.DerivedReadBack` says
  exactly when that is right, `DerivedMeasures.UnbracketedDivisor` what is read otherwise.
- A measure moved to another fact may meet an outer join's null row: it can be left out exactly when the measure's
  argument is null there (`Moved.NullRowExactly`).
- Two conversations that learn of one thing at once can leave no fact of it current (`Facts.NoneCurrent`);
  `Facts.CurrentExactly` says which facts stay current, in any interleaving.
- A slot's value is its literal's text, quotes forgotten: `a = 5` and `a = '5'` are texts of one shape with one value, and
  so are `a = -5` and `a = '-5'` (`Shapes.QuotesForgotten`). `Shapes.ValuesTellTexts` says what equal values mean, and
  exactly when the slots are then the same.
- A text with `?` placeholders of its own is numbered otherwise than its shape (`Shapes.PlaceholdersMisnumber`); without
  them, and only then, a shape's placeholders are its text's slots (`Shapes.HolesAreSlotsExactly`).
- An answer an owner rejected stays out of use in every run of asks, verdicts and audit sweeps, unless a sweep takes the
  rejected step and leaves the one it repeats (`Reuse.RejectedNeverAgain`); `Reuse.SweptExactly` says exactly when one sweep
  brings an answer back.
- A trace tells all its output depends on (`Depends.PlaceDepends`) where every table read is one the catalogue knows and
  stars read by name are expanded. Of a column of one table, exactly when the catalogue knows the table, or it is a per-run
  one (`Depends.UnknownTableExactly`); through a star by place, when the catalogue lists the table's columns
  (`Depends.StarByPlaceExactly`); through a star by name, when it says the table has no such column
  (`Depends.StarByNameExactly`). A column in an IF's condition, an ORDER BY's keys or a window's parts is marked as steering
  exactly where that is strictly inside the expression (`Steering.MarkedExactly`).

Where the code and its comments differ, the model follows the code: `is_control`'s comment speaks of any IF condition and any
window, the code marks only those strictly inside the expression (`parser/qlsc_parse/resolve.py:228-249`).

## Model

| member | source | states |
|---|---|---|
| Recency.TopCapIsPrefix | src/qlsc/memory.py:404-423 | the most recent `cap` facts, as a set chosen by recency, are the first `cap` of the order a read asks for |
| Recency.TopCapOfPart | src/qlsc/memory.py:582-587 | a store that holds some of the facts, the capped ones among them, reads the same facts under the cap |
| Recency.TopCapOfWindow | src/qlsc/memory.py:462-467 | a later window's most recent facts are among an earlier window's, so a window that moves on needs nothing new |
| PagedRead.PagePrefix | src/qlsc/memory.py:530-538 | in a page every anchor but the last is whole or absent, and the last has a prefix of its rows |
| PagedRead.FullPageCompletes | src/qlsc/memory.py:543-549 | a full page completes at least one anchor it is keyed on, each with enough rows |
| PagedRead.EnoughIsExact | src/qlsc/memory.py:584-585 | rows past the cap, cut at it, and the capped flag, are those of the whole answer |
| PagedRead.ReadInward | src/qlsc/memory.py:530-550 | the paged read ends and gives every key asked for all its rows in order, or a most-recent-first prefix of more than the cap, and no other key's |
| Template.BuildTemplate | src/qlsc/memory.py:367-391 | refused exactly for a label the graph does not have; else a relationship into the anchor from another label is read inward, windowed by that label's partition column or by nothing when it has none, one out of it to-one; and the rest hop by hop as TemplateReads says |
| Template.TemplateReads | src/qlsc/memory.py:367-391 | a template field by field: exactly the anchor's own read, the relationships that touch it, and at each later hop those out of what the hop before fetched along a type not read before; each once |
| Template.TemplateIsWellFormed | src/qlsc/memory.py:367-391 | a read's start label was fetched a hop before it, and inward reads are of the anchor's hop |
| Template.EachRelationshipOnce | src/qlsc/memory.py:367-391 | no relationship is read twice |
| Batch.Run.One | src/qlsc/memory.py:514-550 | one read's rows are those of every live anchor's keys, keyed on a copy of what each had; the look-ups in `store` are of keys it has |
| Batch.Run.AbsorbInward | src/qlsc/memory.py:564-596 | sharing an inward read's rows out gives every live anchor the step it takes alone, cap and edges included |
| Batch.Run.AbsorbToOne | src/qlsc/memory.py:555-596 | sharing a to-one read's rows out gives every live anchor only the ends its own nodes point at, as alone |
| Batch.Run.Hop | src/qlsc/memory.py:575-606 | a hop's reads, made together, leave every live anchor where that hop alone would |
| Batch.Run.Execute | src/qlsc/memory.py:575-611 | every anchor ends with the context it gets alone; an absent one stays empty |
| Batch.RunBatch | src/qlsc/memory.py:484-611 | for any set of anchors each context (nodes, edges, and per read keys, row count and cap flag) is that of the anchor alone |
| Batch.RunReads | src/qlsc/memory.py:470-474 | one anchor's context is a batch of one |
| ContextIs.KeptIs | src/qlsc/memory.py:404-423 | the cap keeps a fact exactly when it points at the anchor, is within the window, and fewer than the cap are more recent, or as recent and of a smaller key |
| ContextIs.NodesAre | src/qlsc/memory.py:484-611 | a node is in a context exactly when a chain of reads, of later and later hops, leads to it from the anchor: to facts kept, or along a column to its end |
| ContextIs.EdgesAre | src/qlsc/memory.py:484-611 | an edge is in it exactly when some read brought one of its ends from the other, reached by an earlier hop, and it goes as the relationship does |
| ContextIs.LogIs | src/qlsc/memory.py:555-606 | its record has each of the template's reads once, in the order they run, with the keys earlier hops reached, how many it brought, and cut exactly when more facts than the cap are in the window |
| ContextIs.NoneBeforeWindow | src/qlsc/memory.py:367-405 | of a built template, no fact of a partitioned label that only inward reads fetch is dated before the window |
| Served.ServedExactly | src/qlsc/memory.py:784-832 | reading a part of the warehouse that holds a context whole gives the same nodes and edges as reading the warehouse, under a window that has moved on |
| Provenance.InwardComplete | src/qlsc/memory.py:514-596 | an inward read the cap did not cut brought every fact in its window |
| Provenance.HeldBefore | src/qlsc/memory.py:367-391 | with one read per label, a to-one read is keyed on every node of its start label |
| Edges.RelateOneHas | src/qlsc/memory.py:143-155 | what OUT_OF and INTO leave of an edge: any but of a written start, and those the columns make at a written node |
| Edges.RelateOneExact | src/qlsc/memory.py:143-155 | OUT_OF and INTO for the written nodes make a type's edges exactly the pairs whose column equals the key, though columns moved or became null |
| Edges.StaysDerivedExactly | src/qlsc/memory.py:685-691 | after a write a type's edges are those its nodes' columns make exactly when the writer's model has it or the write leaves it as it was |
| Edges.EndWrittenWithout | src/qlsc/memory.py:685-691 | a writer without a relationship writes its end: the edge from a start already remembered is missing |
| Edges.RelateKeepsAll | src/qlsc/memory.py:685-691 | with one model for all writers, every type's edges stay those its nodes' columns make |
| Edges.SweepKeepsDerived | src/qlsc/memory.py:1139-1143 | deleting nodes with their relationships keeps that so |
| Edges.EdgesFollowNodes | src/qlsc/memory.py:35-38 | relationships have no state of their own: equal nodes have equal edges |
| Window.StartsAQuarter | src/qlsc/memory.py:462-467 | the window starts a calendar quarter, the whole number of quarters before the day's |
| Window.NeverGoesBack | src/qlsc/memory.py:462-467 | as days go on the window's start never goes back |
| Memory.ContextHeld | src/qlsc/memory.py:404-423 | while a context holds, guarded memory is part of the reader's warehouse and has all the context's fetch brought, whole |
| Memory.RecallExact | src/qlsc/memory.py:819-823 | for a context that lasts, the read of memory gives exactly the nodes and edges a fetch at that moment would |
| Remember.ContextUntil | src/qlsc/memory.py:663-676 | a context holds until the first of its labels' facts stops, for good only if all are frozen |
| Remember.WriteKeepsAll | src/qlsc/memory.py:652-706 | a write by any reader keeps every record true and every held context whole |
| Remember.SweepKeepsAll | src/qlsc/memory.py:1139-1197 | so does a sweep |
| Remember.WriteTwice | src/qlsc/memory.py:131-141 | writing a context twice leaves the same columns |
| Linked.WriteKeepsLinked | src/qlsc/memory.py:678-706 | a write by a reader of any part of the model leaves no wrong edge, and every context that holds with all of its own |
| Linked.SweepKeepsLinked | src/qlsc/memory.py:1139-1143 | so does a sweep |
| Lasting.ExactIff | src/qlsc/memory.py:784-832 | in any state, a recall from memory is the fetch exactly when memory holds, whole and visible to its reader, every node a fetch now brings |
| Lasting.OnceExactly | src/qlsc/memory.py:663-670 | after a fetch and time alone, exactly while what was seen of its frozen row-policied nodes is its reader's |
| Lasting.SweptExactly | src/qlsc/memory.py:1142-1143 | after another reader's fetch and a sweep, exactly when the sweep took no node a fetch now brings, and what was seen is still seen |
| Lasting.FrozenPoliciedFallsShort | src/qlsc/memory.py:663-676 | a run to a fresh context whose recall, without its frozen row-policied node, is not the fetch |
| Lasting.SweepTakesHeldNode | src/qlsc/memory.py:1142-1143 | a run (fetch, another's fetch of the anchor, sweep) to a fresh context whose recall, without a node swept, is not the fetch |
| Lasting.LastsExactly | src/qlsc/memory.py:663-676 | a context of more than its anchor is served exactly at every moment it holds, through such runs, when and only when it ends in time and its nodes are seen in time |
| Recall.Store.Write | src/qlsc/memory.py:652-727 | each node written has the columns read as fetched, the others as they were, and holds as long as its label's facts; other nodes as they were; the READs recorded are exactly that of the anchor, which carries the context, and one of each other policied node; the writer's types re-derived, each in step exactly as Edges.StaysDerivedExactly says |
| Recall.Store.Sweep | src/qlsc/memory.py:1172-1197 | exactly the nodes not fetched before the cutoff stay, as they were, exactly the records whose node stays, and the edges both of whose ends do; every invariant kept, each record of a node in memory among them |
| Recall.Store.LatestFresh | src/qlsc/memory.py:173-179 | the reader's own latest context of the anchor that still holds, or none exactly when there is none |
| Recall.Store.ServeFromMemory | src/qlsc/memory.py:807-832 | exactly the keys with a record of the reader's own, of a fetch by the same template, that still holds are served: what memory gives their reader now, flagged by the latest such record; each node of it unexpired, and of a policied label only if the reader's own READ of it holds |
| Recall.Store.FromMemory | src/qlsc/memory.py:819-832 | the context as memory gives it, as fetched now when its record lasts, its capped flags those of the record; its own record left |
| Recall.Store.Fetch | src/qlsc/memory.py:833-841 | the missing contexts, fetched together; each written whole, with its READs, and nothing else changed |
| Recall.Store.RecallBatch | src/qlsc/memory.py:784-842 | for a reader of any part of the model: each context is the one a fetch now gives, where none was fresh, it is forced, or its fresh records last, whoever wrote, recalled or swept in between; a fresh one is read back from memory, its anchor there; no node is given that its reader may not read, nor a column; what was fetched is written whole; the reader's own types stay in step |
| Answered.AnswerExact | src/qlsc/memory.py:1078-1122 | a covered block, its conjuncts plain (NOT IN, IS NOT NULL, truth tests, column comparisons and ANDs among them), has exactly the warehouse's bindings over the context, window, cap and joins included, and the same rows |
| MemoryRoute.MatchEitherWay | src/qlsc/compile.py:1016-1028 | with every type in step, matching along memory's edges, whichever end the join starts from, is matching on its columns |
| MemoryRoute.MatchByContextEdges | src/qlsc/compile.py:1016-1028 | so it is for a covered block though types are not in step: the edges it needs are the context's own |
| MemoryRoute.YesIsExact | src/qlsc/memory.py:1004-1013 | a yes means the guarded match over memory, along its edges or on its columns, gives exactly the bindings, and the cells, of the reader's warehouse |
| Comparisons.CollectedIsListed | src/qlsc/memory.py:1032-1046 | the decision collects each equality and lower bound with a literal, wherever it stands in the filters, each once and no other, an earlier filter's first and in each the nearest its top |
| Owed.ReachedIs | src/qlsc/memory.py:1100-1118 | a table is covered exactly when joins, one after another in the block's order, lead to it from a start: to the end of the relationship its column makes, which the template reads from there, either way round, or from facts read into the entity to the entity |
| Owed.CoversExactly | src/qlsc/memory.py:1047-1122 | the block is covered exactly when its filters name one entity; each table of facts last named by a relationship read into it has that read uncut and, if windowed, its last lower bound inside the window; and every table is reached from those and the entity |
| MemoryRoute.Decide | src/qlsc/memory.py:1004-1122 | the decision over the reader's own model: each refusal exactly when its cause holds; it rests on the reader's own latest context of the entity that still holds; a yes exactly when memory owes it (Owed.CoversExactly), and then, for conjuncts that are plain, the match is exact |
| Escapes.UnkeptColumnEscapes | src/qlsc/memory.py:1030-1046 | a comparison on a column memory does not keep: covered, matched in the warehouse, and in neither the context nor memory |
| Escapes.OrEscapes | src/qlsc/memory.py:1032-1046 | an equality inside an OR makes a block covered that misses a row |
| Escapes.OtherRelationshipEscapes | src/qlsc/memory.py:1111-1118 | with two relationships from the facts to the anchor, a block joined along the one not looked at is covered and misses a row |
| Escapes.LiteralFirstExactly | src/qlsc/memory.py:1034-1046 | a literal-first `>` or `>=` is read as a lower bound: covered, and right exactly when the entity has no admitted fact before the window |
| Measures.WrapIsFilter | src/qlsc/compile.py:301-318 | an aggregate expression wrapped in a condition is the expression over the rows the condition keeps, COUNT(*), distinct counts and arithmetic included |
| Measures.ConditionKeeps | src/qlsc/compile.py:306-308 | several filters as one condition keep the rows all of them keep, under null logic |
| Measures.MeasureOverItsOwnRows | src/qlsc/compile.py:767-821 | with shared filters in WHERE and the rest wrapped, each measure is its value over just the rows its own filters keep, in every group |
| Measures.GroupRowsAre | src/qlsc/compile.py:767-821 | a group's rows are exactly the rows that the request's filters and every filter common to all measures keep, each as often as it was, that have its keys |
| Measures.GroupsAreThose | src/qlsc/compile.py:767-821 | so the answer has a group exactly when some such row has its keys |
| Measures.FanoutSafeSame | src/qlsc/compile.py:321-330 | an accepted expression has one value on any two lists of rows with the same distinct rows |
| Measures.FanoutSafeIs | src/qlsc/compile.py:321-330 | an expression is accepted exactly when it aggregates somewhere, and nowhere but as MIN, MAX or a count of distinct values |
| Moved.MovedMeasure | src/qlsc/compile.py:683-710 | at another fact, a safe measure on a table is, in every group of the block's own rows, its value over the distinct rows of that table reached there; over rows of the table alone when it makes nothing of the null row |
| Moved.NullRowExactly | src/qlsc/compile.py:683-710 | an outer join's null row may be left out, whatever the rows, exactly when the aggregate's argument is null there |
| From.JoinedIsExtensions | src/qlsc/compile.py:840-848 | joins to unique tables give each row its one extension, if its inner joins match |
| From.FactRowsOnce | src/qlsc/compile.py:840-848 | the fact's rows in the answer are a subsequence of the fact's: all of them when every join is outer |
| From.SharedTargetMultiplies | src/qlsc/compile.py:209-211 | a target that is not unique does multiply rows |
| Routes.ShortestRoutes | src/qlsc/compile.py:209-227 | what the search reaches is what some route within the hops leads to, each by a shortest one of hops to unique tables |
| FirstRoutes.FirstOfShortest | src/qlsc/compile.py:209-227 | of several shortest routes to a table, the search finds the one that, where it parts from another, goes along the join its table lists earlier |
| Routes.PrefixClosed | src/qlsc/compile.py:209-227 | a table on a route is reached by that part of the route |
| JoinTree.FindRoute | src/qlsc/compile.py:209-227 | the search that stops at its goal returns the goal's route of the whole search, or none exactly when it has none |
| JoinTree.Overlay | src/qlsc/compile.py:807-813 | laying a route over the joins so far adds its missing hops and keeps a tree |
| JoinTree.JoinList | src/qlsc/compile.py:717-813 | Unfit exactly when a wanted table is out of reach; else a tree of exactly the wanted tables' shortest routes, every target unique, a join outer exactly when the log mostly writes it so, whichever way round |
| JoinTree.BlockKeepsFactRows | src/qlsc/compile.py:807-813 | so a block's rows hold each fact row at most once, in order; exactly once when all joins are outer |
| CypherMatch.ReadAt | src/qlsc/compile.py:940-948 | the substitution loop ends, at a column no outer join equates further, the one the joins lead back to |
| CypherMatch.SourceSays | src/qlsc/compile.py:940-948 | where the joins' columns agree, the column read there says what the one asked for does |
| Rendered.Render | src/qlsc/compile.py:923-986 | Unfit exactly when a table outside the joins is read; else the inner, filtered and optional parts as specified |
| Rendered.NeededIs | src/qlsc/compile.py:963-968 | the tables walked are those read and those on the way to them, and no other |
| Rendered.OptionalIs | src/qlsc/compile.py:972-975 | a walked table is optional exactly when its join is outer and unfiltered, or starts at an optional one |
| SameRows.MatchGivesSqlRows | src/qlsc/compile.py:963-986 | the match's rows are the SQL's, in order, saying the same of every table needed |
| SameRows.SameAnswers | src/qlsc/compile.py:923-986 | every group has as many rows, and every output the same value over it, null groups included; and so has the one row of a question without dimensions over no rows |
| SameRows.MatchIsWithout | src/qlsc/compile.py:963-986 | for a query so shaped, over any tables joined on unique columns, the match's rows are those of the SQL without its unneeded joins |
| SameRows.UnneededExactly | src/qlsc/compile.py:963-968 | they are the SQL's exactly when no inner join to a table not needed drops a row |
| SameRows.KeysAgreeExactly | src/qlsc/compile.py:940-942 | a row's key columns may be read at their pointing side exactly when its non-null pointing values have matches |
| SameRows.DanglingPointerRegroups | src/qlsc/compile.py:940-942 | a pointing value without a match is grouped under null in SQL and under itself in Cypher |
| SameRows.UnneededJoinKeepsRows | src/qlsc/compile.py:963-968 | an inner join nothing reads drops rows in SQL and not in Cypher |
| SameRows.InnerFromOptionalKeepsRows | src/qlsc/compile.py:971-975 | an inner join from a table walked optionally drops rows in SQL and not in Cypher |
| SameRows.FilterReadsUnmatched | src/qlsc/compile.py:971-986 | a filter on a table joined from one walked optionally reads, in WHERE, what no MATCH before it binds |
| SameRows.NullFilterDropsRows | src/qlsc/compile.py:971-976 | a filter that keeps an outer join's null row keeps it in SQL and not in Cypher |
| Guarded.GuardedIsHeld | src/qlsc/compile.py:977-986 | the guard in WHERE, and in each OPTIONAL MATCH's own, makes the match one over what memory holds for the reader |
| CypherExpr.TimestampOnDay | src/qlsc/compile.py:1122-1138 | a timestamp's day compared with a day is the timestamp against midnights, for every comparison and for null |
| CypherExpr.TruthTest | src/qlsc/compile.py:1101-1102 | a truth test's value is SQL's exactly on true or false operands, its truth always |
| CypherExpr.CaseOfSame | src/qlsc/compile.py:1069-1079 | a CASE needs only the truth of its conditions and the values it comes to |
| CypherExpr.TranslatesExactly | src/qlsc/compile.py:1038-1119 | an expression is refused exactly when some part of it has no translation: an operator or aggregate out of the list, DATE on its own, a Sunday's week, a timestamp literal |
| CypherMeans.SumOrNull | src/qlsc/compile.py:1061-1064 | SUM of no values stays null |
| CypherMeans.TranslationAgrees | src/qlsc/compile.py:1038-1119 | every supported expression keeps its value over every row and group, nulls included; a truth test where truth counts keeps its truth |
| CypherMeans.RenderedMeansSql | src/qlsc/compile.py:923-1119 | the rendered Cypher, evaluated as Cypher, has the SQL's groups, and every output's value over each, or over none |
| MemoryMeans.GuardedCypherIsHeld | src/qlsc/compile.py:977-986 | with its guard, over everything in memory, it is the Cypher over what memory holds for the reader |
| MemoryMeans.MemoryMeansSql | src/qlsc/memory.py:973-988 | so it has the groups and values of the SQL over what memory holds, the value over no rows included |
| Tables.SqlRowsAreMatches | src/qlsc/compile.py:840-848 | a question's SQL rows, over a graph's nodes as tables, are its matching bindings |
| Walked.KeptByMatchIs | src/qlsc/compile.py:940-986 | the rendered match keeps a fact exactly when it matches the question with its filters read where the outer joins equate their columns, over the tables matched |
| WalkedContext.WalkedInContext | src/qlsc/memory.py:1078-1122 | such a match of a covered question binds only nodes of the context, though its filters are read at other columns than the decision looked at |
| Routed.RoutedMeansSql | src/qlsc/memory.py:1004-1013 | when the decision is yes, and the rendering fits the reader's warehouse, the guarded Cypher over memory has the groups and values of the question's SQL over that warehouse |
| CypherMeans.NegatedTruthTestDrops | src/qlsc/compile.py:1097-1102 | under NOT, a truth test of a null drops a row SQL keeps |
| CypherMeans.DateOfDateUnknown | src/qlsc/compile.py:1089-1092 | DATE() of a date against a day is always unknown in Cypher, known in SQL |
| Printing.ReadsOn | src/qlsc/compile.py:1038-1119 | a bracketed tree's text, followed by anything that does not bind tighter, is read as the tree |
| Printing.ParsedIsBracketed | src/qlsc/compile.py:1038-1119 | whatever is read has its looser operands bracketed |
| Printing.ReadsBackExactly | src/qlsc/compile.py:1038-1119 | text reads back as its tree exactly when each looser operand is bracketed |
| CypherText.TranslationReadsBack | src/qlsc/compile.py:1038-1119 | of SQL bracketed by SQL's precedence, the Cypher text reads back as its tree exactly when none of the listed places, each told from the SQL, occurs in it |
| CypherText.OperatorsApart | src/qlsc/compile.py:911-913 | no two comparisons print alike, nor two arithmetic signs |
| CypherText.SafeDivideReadsBack | src/qlsc/compile.py:1080-1082 | SAFE_DIVIDE reads back right exactly when its divisor binds tighter than a product |
| DerivedMeasures.Order | src/qlsc/compile.py:605-613 | the loop ends with an order that defines every operand before its use, or reports Unfit exactly when there is none |
| DerivedMeasures.Texts | src/qlsc/compile.py:1002-1007 | the loop that prints the derived measures never looks up a missing operand |
| DerivedMeasures.TextsAre | src/qlsc/compile.py:1002-1007 | a base measure's text is its name, a ratio's null over zero and else the quotient of real numbers, a difference's the one minus the other, of its two operands' own texts |
| DerivedMeasures.SqlTextsAre | src/qlsc/compile.py:866-871 | in SQL, SAFE_DIVIDE of the two, or the one in brackets minus the other |
| DerivedMeasures.DerivedReadBack | src/qlsc/compile.py:1002-1007 | all derived measures read back right exactly when none has a difference for its second operand |
| DerivedMeasures.UnbracketedDivisor | src/qlsc/compile.py:1080-1082 | a bare sum as divisor is read as a sum of a quotient |
| DerivedMeasures.SqlReadsBack | src/qlsc/compile.py:866-871 | in SQL they always read back right |
| UnionFind.HalvingKeepsRoots | src/qlsc/joins.py:44-49 | a path-halving step changes no root |
| UnionFind.UnionSays | src/qlsc/joins.py:51-54 | one union makes the roots say exactly what one more edge connects |
| UnionFind.DSU.Find | src/qlsc/joins.py:44-49 | the least member connected by the unions so far; nothing else changes |
| UnionFind.DSU.Union | src/qlsc/joins.py:51-54 | the edge added, so two columns have one root exactly when connected |
| Suspects.IdSpaces.constructor | src/qlsc/joins.py:85-97 | the established spaces and their names are those the set of unions determines |
| Suspects.IdSpaces.Of | src/qlsc/joins.py:102-104 | a column's own space when an accepted join touches it, else those of its name |
| Suspects.IdSpaces.Contradicts | src/qlsc/joins.py:106-125 | true exactly when the join equates two separate spaces that some production table holds apart |
| Suspects.Judge | src/qlsc/joins.py:132-138 | a pass's suspects, each join judged without itself, as a function of the sets of joins and lineage |
| Suspects.FindSuspects | src/qlsc/joins.py:128-142 | the loop gives the fifth pass's suspects, whatever the order of joins and lineage |
| Suspects.StableIsFixed | src/qlsc/joins.py:139-142 | once two passes agree all later ones do, and the suspects are a fixed point of judging |
| Facts.LearnedSupersedes | src/qlsc/converse.py:441-456 | the learned fact is its subject's one current fact, and holds from now on; intervals never overlap; a corrected fact holds at no time, a changed one until now |
| Facts.ChangeLeavesNoGap | src/qlsc/converse.py:133-141 | a change leaves something holding whenever something held |
| Facts.Knowledge.Learn | src/qlsc/converse.py:441-456 | the two statements, and that invariant over every sequence of learns |
| Facts.AtMostOneCurrent | src/qlsc/converse.py:125-141 | in any interleaving of many learns' statements, once all are over at most one fact of a subject is current |
| Facts.CurrentExactly | src/qlsc/converse.py:125-141 | a fact is current exactly when no other learn of its subject superseded after it was stated |
| Facts.NoneCurrent | src/qlsc/converse.py:450-454 | two learns can leave none current |
| Reuse.DoKeeps | src/qlsc/converse.py:331-360 | every statement of every conversation, and every audit sweep between them, keeps links one deep and each ask's state sound |
| Reuse.AskAlone | src/qlsc/converse.py:331-380 | an ask's four statements with no other between come to a step that repeats the one found, or to one of its own |
| Reuse.CopiesAreOneDeep | src/qlsc/converse.py:172-185 | in every run a reused answer is linked to a step that succeeded and is no copy, with its owner, request, answer and hold |
| Reuse.RejectedNeverAgain | src/qlsc/converse.py:172-191 | in every run of asks, verdicts and audit sweeps, once an owner rejects an answer, first given or reused, no later ask of theirs finds its original, unless a sweep took the rejected step and left that; nor a copy of it, unless a sweep took the original; and what is found still holds |
| Reuse.SweptExactly | src/qlsc/memory.py:1144-1165 | an audit sweep brings a rejected answer back exactly when its original stays and every step of it that was rejected goes, or it goes and a copy not itself rejected stays |
| Reuse.Remembered | src/qlsc/converse.py:175-180 | a latest reusable step, or none exactly when there is none |
| Reuse.Conversation.Ask | src/qlsc/converse.py:331-380 | answered from memory exactly when the owner has an answer to the request, first given, that still holds and that they never rejected, as first given or as given again; then by a latest such, with its answer; the step recorded as such |
| Reuse.Conversation.RejectLast | src/qlsc/converse.py:420-437 | refused with no answer to reject; else the rejection is recorded, and the step, or the one it repeats, is reusable for no request |
| Slots.SlotsAreTops | parser/qlsc_parse/fingerprint.py:30-42 | the slots are exactly the literals, or arrays of literals, with no slot above them |
| Slots.SlotsDisjointAndCovering | parser/qlsc_parse/fingerprint.py:30-42 | no slot is inside another; each is a literal, its negation or an array of one or more of such alone; and every such is in one |
| Slots.WalkFindsSlots | parser/qlsc_parse/fingerprint.py:30-42 | the pre-order walk meets the slots in that order |
| Slots.LiteralSlots | parser/qlsc_parse/fingerprint.py:30-42 | the walk with its skip set gives exactly the slots |
| Shapes.SameShapeSameSlots | parser/qlsc_parse/fingerprint.py:13-15 | texts of one shape have their slots in the same places |
| Shapes.HolesAreSlotsExactly | parser/qlsc_parse/fingerprint.py:53-65 | a shape's placeholders are its text's slots exactly when the text has none of its own |
| Shapes.PlaceholdersMisnumber | parser/qlsc_parse/fingerprint.py:53-57 | two texts of one shape, one with its own placeholder, numbered differently |
| Shapes.RefillRebuilds | parser/qlsc_parse/fingerprint.py:45-65 | a shape refilled with its text's slot contents is the text, its tables' names canonical |
| Shapes.ValuesTellTexts | parser/qlsc_parse/fingerprint.py:45-50 | two slots have one value exactly when, item by item, their texts are equal, minus sign included; they are then the same exactly when, item by item, both are quoted or neither is |
| Shapes.QuotesForgotten | parser/qlsc_parse/fingerprint.py:45-50 | `5` and `'5'`, and `-5` and `'-5'`: different texts of one shape with the same values |
| Shapes.NumberSlots | parser/qlsc_parse/resolve.py:831-836 | each statement's slots numbered on from those before, every place its own number |
| Shapes.SlotSelectsOwnLiteral | src/qlsc/load.py:366-381 | the index a filter records in one text selects, in any of its shape, that text's own literal, across statements |
| Lineage.Tracer.Column | parser/qlsc_parse/resolve.py:252-269 | the memoised tracer, cycle guard included, gives the plain recursive trace |
| Lineage.Tracer.Expression | parser/qlsc_parse/resolve.py:177-201 | so for an expression's columns, each with how it counts there |
| Lineage.Tracer.OutputAt | parser/qlsc_parse/resolve.py:629-648 | so for an output by its place, through set operations and unexpanded stars |
| Depends.PlaceDepends | parser/qlsc_parse/resolve.py:328-379 | a scope's output, for any derivation of its row, windows and ordered aggregates included, is the same in two databases that agree on the columns of its trace |
| Depends.PlaceCopies | parser/qlsc_parse/resolve.py:651-654 | on the way a row took, an origin no more than renamed is the only one and names the cell copied; and every cell copied is so listed, where the tables read are known and stars expanded |
| Depends.OriginIsCopy | parser/qlsc_parse/resolve.py:42-56 | an origin of kind passthrough or rename is an exact copy of one row's cell of that base column, whatever the database holds |
| Depends.AggregateMarked | parser/qlsc_parse/resolve.py:189-200 | every origin of an expression that aggregates is of kind aggregate |
| Depends.StarByNameExactly | parser/qlsc_parse/resolve.py:362-379 | of an output read by name through an unexpanded star, the trace tells all it depends on exactly when the catalogue says the table has no such column |
| Depends.UnknownTableExactly | parser/qlsc_parse/resolve.py:316-327 | of an output that is a base table's column, exactly when the catalogue knows the table or it is a per-run one |
| Depends.StarByPlaceExactly | parser/qlsc_parse/resolve.py:638-646 | of one passed on by place in a star, exactly when the catalogue lists the table's columns |
| Steering.MarkedExactly | parser/qlsc_parse/resolve.py:228-249 | in every expression a column is marked as steering exactly where it is in an IF's condition, an ORDER BY's keys or a window's parts, of something strictly inside |
| Steering.TraceMarks | parser/qlsc_parse/resolve.py:177-201 | an expression's origins are exactly those of the columns at its places: of the same base column, marked if they were or the place steers, of the greater of the two kinds, with the expression's functions before their own |
| Trails.FnsAre | parser/qlsc_parse/resolve.py:189-223 | an expression's functions are those called, and the constants that scale, at some place in it, each once |
| Trails.SourceIs | parser/qlsc_parse/resolve.py:156-162 | a column's source is that of its scope, or of the nearest scope around that has one for the name |
| Trails.LeavesAre | parser/qlsc_parse/resolve.py:657-662 | a set operation's branches are what its branches come down to through the set operations among them |
| Trails.NamesAre | parser/qlsc_parse/resolve.py:351-358 | a set operation's output names are those of the SELECT its first branches come down to |
| Trails.OneHop | parser/qlsc_parse/resolve.py:651-654 | a projection's origins are exactly those of the columns at its places, carried: field by field, a column under another name being a rename |
| Trails.TrailKindIs | parser/qlsc_parse/resolve.py:53-55 | a trail's kind is one of its hops', and none of theirs is greater |
| Trails.PlaceIs | parser/qlsc_parse/resolve.py:629-648 | through any scopes, an output's origins are exactly what its trails to base columns say: the greatest of their hops' kinds, their functions in order, and marked exactly when some hop on the way steers |

## Left out

- I/O, the network, sessions and the databases themselves: each Cypher write statement is a state change, each read a query over the state; clocks, new ids, answers and the word of a catalogue on uniqueness are parameters.
- Recall.Store.RecallBatch: the warehouse does not change in a run, and a reader's model is as it is when they recall.
- Recall.Store.Sweep: of a sweep, only the fetched rows; what its audit classes take of steps and rejections is Reuse.SweptExactly, apart from the store.
- Recall.Store.Write: the stubs of tables and columns, who fetched a node and with what text are not modelled; a label's cadence is taken as given, not computed from its write days.
- Batch.RunBatch: the reads of a hop are made one after another, each from the state before any is absorbed; seconds and query texts are not kept; a context as of a past day is not modelled.
- MemoryRoute.Decide: literal values are compared as numbers, not as their texts; a filter's brackets are no nodes of it, which in the source put what is inside them one level further from its top.
- Measures.WrapIsFilter: the source rewrites its tree in place; here the rewritten tree is a new value.
- Moved.MovedMeasure: a measure that is not fan-out safe may share a block on a to-one table; its meaning is over the fact's rows, and nothing is claimed of double counting.
- JoinTree.JoinList: the tables a block wants are given; which column of a dimension's alternatives is chosen, and the grouping of measures into blocks, are not modelled; each table's joins are taken in their order.
- Rendered.Render: labels, properties and relationship names are taken to exist in the model; whether a filter is on a table is by the columns it reads, where the source looks for the table's alias in its text, so no alias may end another.
- CypherMeans.TranslationAgrees: the simple form of CASE, the remainder, and zero divisors outside SAFE_DIVIDE (an error in SQL, some value in Cypher) are outside it; the calendar is a parameter; expressions are well typed.
- CypherMeans.RenderedMeansSql: the target is memory (MemoryMeans adds its guard); over the virtual graph, which has no OPTIONAL MATCH, outer joins are walked as inner ones and nothing is claimed; plans of one block, without values per entity; the tests a plan makes after grouping, the order and the limit of its rows are not modelled.
- Routed.RoutedMeansSql: a relationship is walked as the join of the columns that make it (MemoryRoute.MatchByContextEdges: along memory's edges each binding matches alike); a table's rows come in one order in memory and in the warehouse; cells are numbers, a boolean 1 or not, and a truth test stands under no NOT.
- CypherText.TranslationReadsBack: a BETWEEN or a day's equality as AND's right operand reads back regrouped, which means the same; that a text read otherwise also means otherwise is not claimed.
- DerivedMeasures.Order: names asked for twice are refused elsewhere in a plan and are not told apart here.
- Suspects.FindSuspects: the tables named as evidence against a join are not kept, only that there is one; ids are told apart.
- Facts.Knowledge.Learn: the node a fact is about is given; a reason other than changed or corrected is refused before it.
- Reuse.Conversation.Ask: how a new answer is found, its fingerprint and what it read are not modelled; it holds at the time memory is looked up, its step is written a moment later.
- Shapes.RefillRebuilds: shapes are trees; that different trees print as different texts, and texts hash apart, is not modelled.
- Lineage.Tracer.Column: struct fields, unqualified names, UNNEST, scalar subqueries, recursive CTEs and the list of what was not resolved are not modelled; columns, and the functions of one expression, are listed depth first, where the source goes breadth first, and nothing is claimed of their order; a scaling constant is its value, not its text.
- Depends.PlaceDepends: which rows a scope has, decided by its filters and grouping, is given with each row's derivation; stars read by name are expanded; what an order, a window or a function makes of values is any function of them; system tables are tables the catalogue does not know.
- Multi-block plans joined with FULL JOIN, requests checked against a question, row entitlement and signing, clustering, naming and embedding, reports and the user interface.
