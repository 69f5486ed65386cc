# Rapina, verified

A Dafny model of the parts of the Rapina web framework and its command-line tool in which several
functions, or a whole run of requests, edits or commands, have to fit together. Each part is
modelled in the form of its source (classes and loops where the source updates state, functions where
it computes) and its promises are proved for every input and every run.

* **Response cache** (`ResponseCache`, `CacheLimits`, `CacheKeys`, `CacheServer`, `CacheSimulation`,
  `CacheAnswers`, `CacheHits`). The bounded map with expiry times is a class whose calls take their
  own clock readings. It is proved to be indistinguishable from a map that forgets an entry the
  instant it expires; to stay within its limit; to keep what it should; and to free what has expired
  within a bounded number of calls. The middleware in front of an application is proved to answer like
  the application alone, given what an application owes it: a GET depends on its path, the multiset of
  its query parameters and the state under its first path segment; only successful mutations change
  state, only under their own first segment, and their routes start with a static segment; a response
  marked for caching has a body that can be collected. That last condition is exact: a body that fails
  while it is collected becomes a server error. Which answers are stored, for how long, how they are
  marked, and which later requests are answered from the store is proved from the headers of the
  answers.
* **Pagination** (`CursorPagination`, `CursorWalks`, `CursorBackwards`, `CursorRanges`,
  `OffsetPagination`, `OffsetRequests`). A table is a sequence sorted on distinct keys. Walks by next
  and previous tokens over a fixed table stay on one grid of pages; walks over a table that changes
  between requests, forward or back, repeat no row and miss none that was always there. The offset
  requests from page one to the last return the result in order; a page number far past the end can
  wrap around to the first page.
* **The `schema!` tools** (`CoreLines`, `SchemaSource`, `SchemaCodegen`, `SchemaCore`, `SchemaChunks`,
  `SchemaFiles`, `SchemaAttributes`, `SchemaRoundTrip`, `SchemaUpsert`, `SchemaFields`). Printer,
  line-based parser and brace-counting editor, over whole files in any layout on which the two agree
  where a block ends, and over runs of updates. What a file says is read off its text by type name and
  attribute line. Two promises hold only under a condition, which is proved to be exact. A forced
  update drops every block that mentions `Name {`, whole, so it can take longer names and neighbours
  with it; and it overlooks blocks that open with `schema!{`, which the parser reads. And a printed
  block with an empty key list does not come back; this concerns the printing function alone, since no
  command passes it an empty list.
* **AGENTS.md** (`AgentsBlock`, `AgentsFound`, `AgentsFix`, `AgentsDiff`). The marker block is found
  again in any text, drift is classified, and repairs keep what the user wrote around the block over
  every run of edits, upgrades and unforced fixes. The documentation of the fix promises to preserve
  text outside the markers; the code keeps that promise exactly for a file that has a block or is
  empty, and replaces any other file whole. The parser panics, and check and fix with it, exactly on
  the texts in which the header it reads ends behind the first end marker: a stray end marker in front
  of the block is one cause, a begin line that has lost its arrow another. The hash is any function to
  hexadecimal text, one-to-one where collisions matter.
* **Relay channels** (`RelayChannels`). First match in the sorted list is the most specific match.
* **OpenAPI comparison** (`OpenApiDiff`, `OpenApiMeaning`, `OpenApiOnce`, `OpenApiReach`). The loops
  fill one mutable report; what it contains is characterised without them, by paths of names through
  the two specifications, and each change stands in it once. The source's comments speak of required
  fields; its code compares all top-level property names, and the model follows the code.
* **Migrations file** (`MigrationsFile`, `MigrationsRuns`, `MigrationsRead`, `Comments`,
  `MigrationsList`, `MigrationsByHand`). The text of the module file after every run of commands, and
  a reader that gets the entries back. `jobs init` adds its entry unless the file mentions its name,
  so a migration named after it shadows it; a generated migration does not check for an existing file,
  so only its names can repeat. For files written by hand the exact condition is proved under which a
  new entry is listed: the code inserts before the last closing brace of the file, be it the macro's,
  a later one or one in a comment, and adds no comma. What is listed is read with comments and string
  literals blanked out.

`Text` holds the string operations of Rust's standard library that the modelled code calls, and
`Wrappers` the shared datatypes. Strings are sequences of characters; positions count characters.
`dafny verify dfyconfig.toml` checks the whole project.

## Model

| member | source | states |
|---|---|---|
| ResponseCache.InMemoryCache.constructor | rapina/src/cache.rs:87-93 | A new cache is empty and has counted no operation. |
| ResponseCache.InMemoryCache.CleanupExpired | rapina/src/cache.rs:102-105 | Exactly the entries that expire after the clock reading stay. |
| ResponseCache.InMemoryCache.MaybeCleanup | rapina/src/cache.rs:95-100 | The counter goes up and wraps at 64 bits; every thousandth operation, but not the first, sweeps. |
| ResponseCache.OldestExists | rapina/src/cache.rs:120-128 | A map that is not empty has an oldest entry, so eviction always finds its victim. |
| ResponseCache.InMemoryCache.EvictIfFull | rapina/src/cache.rs:107-129 | Below the limit nothing happens; at the limit expired entries go, and if that is not enough one oldest live entry. |
| ResponseCache.InMemoryCache.Get | rapina/src/cache.rs:133-151 | One step of the store: sweep, lookup, removal of an expired entry, each at its own clock reading. |
| ResponseCache.InMemoryCache.Set | rapina/src/cache.rs:153-168 | One step of the store: sweep, room, insertion with creation and expiry times of the same reading. |
| ResponseCache.InMemoryCache.InvalidatePrefix | rapina/src/cache.rs:170-174 | Exactly the keys that do not start with the prefix stay. |
| ResponseCache.StepForward | rapina/src/cache.rs:95-174 | Every call of the store is a call of a reference map that forgets an entry the instant it expires, with the same answer. |
| ResponseCache.StepBackward | rapina/src/cache.rs:95-174 | Every call of the reference map with its answer can be made by the store. |
| ResponseCache.SameRuns | rapina/src/cache.rs:95-174 | Over every timed run store and reference map allow exactly the same calls and answers: periodic sweep, removal on access and sweep before eviction cannot be observed. |
| CacheLimits.StepFits | rapina/src/cache.rs:107-168 | Each call keeps the number of entries within `max_entries`, or one if that is zero. |
| CacheLimits.RunFits | rapina/src/cache.rs:107-168 | No sequential run ever exceeds that number. |
| CacheLimits.RefRetains | rapina/src/cache.rs:107-168 | While fewer than `max_entries` newer entries and later sets exist, a live entry is answered unchanged. |
| CacheLimits.SetIsRetained | rapina/src/cache.rs:107-168 | A value is still answered after up to `max_entries - 1` later sets of other keys and any reads, up to its expiry, unless a matching prefix was invalidated. |
| CacheLimits.SetIsRetainedInRuns | rapina/src/cache.rs:87-168 | The same over every run that starts from an empty cache and whose sets come at strictly increasing times. |
| CacheLimits.ExpiredAreForgotten | rapina/src/cache.rs:95-168 | After 1001 reads and sets no entry is left that had expired before them, or after 1616 if the operation counter wraps meanwhile. |
| CacheKeys.BuildCacheKey | rapina/src/cache.rs:361-370 | Builds the key of a path and a query. |
| CacheKeys.SortSorts | rapina/src/cache.rs:366-367 | The sorted parameters are ordered and are the parameters. |
| CacheKeys.SortedUnique | rapina/src/cache.rs:366-367 | A sorted list is determined by its multiset. |
| CacheKeys.KeysEqual | rapina/src/cache.rs:361-370 | For paths without a question mark, keys are equal exactly when the paths are equal and the query parameters are equal as multisets. |
| CacheKeys.PrefixesFromPattern | rapina/src/cache.rs:413-432 | Builds the prefixes that a route pattern gives. |
| CacheKeys.BuildInvalidationPrefixes | rapina/src/cache.rs:383-396 | Builds the prefixes with the pattern, or by the fallback. |
| CacheKeys.PrefixesAre | rapina/src/cache.rs:383-432 | For a path and a route of given segments the prefixes are those of the path up to each segment whose place in the route is not a `:` parameter; without a route, up to each segment. |
| CacheKeys.PrefixesChain | rapina/src/cache.rs:383-432 | Each emitted prefix is a prefix of the next. |
| CacheKeys.ChainClears | rapina/src/cache.rs:170-174 | Clearing a chain in any order removes exactly the keys under its shortest prefix. |
| CacheKeys.FirstSegmentIs | rapina/src/cache.rs:391-394 | The first segment of a path is the text between its leading slash and the next one. |
| CacheKeys.FirstPrefix | rapina/src/cache.rs:383-432 | With a static first segment the shortest prefix is that of the first path segment. |
| CacheKeys.SameClearing | rapina/src/cache.rs:383-432 | With a static first segment the pattern-aware and the fallback builder clear the same entries. |
| CacheKeys.MutatedPathCleared | rapina/src/cache.rs:413-432 | With a static segment in the pattern, every key of the mutated path and of the paths below it goes, if the path writes its segments up to the first static one with single slashes. |
| CacheKeys.MutatedPathClearedIff | rapina/src/cache.rs:413-432 | That condition on the path is exact. |
| CacheKeys.CleanPathsQualify | rapina/src/cache.rs:413-432 | Every path that starts with a slash and has no empty segment meets it. |
| CacheKeys.NothingCleared | rapina/src/cache.rs:413-432 | A route made only of parameters clears nothing. |
| CacheKeys.KeyUnderSegment | rapina/src/cache.rs:361-370 | The key of a path lies under the prefix of its first segment. |
| CacheServer.CacheMiddleware.Fetch | rapina/src/cache.rs:284-341 | After a miss: pass through, refuse a stream, fail on a broken body, or store and mark. |
| CacheServer.CacheMiddleware.Invalidate | rapina/src/cache.rs:347-354 | The store afterwards is the store with every prefix cleared. |
| CacheServer.CacheMiddleware.Handle | rapina/src/cache.rs:259-358 | Answer, world and store after one request. |
| CacheAnswers.AskedIff | rapina/src/cache.rs:441-447 | The middleware takes an answer to ask for `n` seconds exactly when its first `x-rapina-cache-ttl` header stands for `n`, in digits, below 2^64. |
| CacheAnswers.DecimalStandsFor | rapina/src/cache.rs:441-447 | Every such number, written in decimal, stands for itself. |
| CacheAnswers.AskedIsStored | rapina/src/cache.rs:286-338 | A GET that misses and whose answer asks for `n` seconds is stored with status and body until `n` seconds after the set; its answer has lost that header and says `x-cache: MISS`. |
| CacheAnswers.UnaskedPasses | rapina/src/cache.rs:286-340 | Any other GET that misses leaves nothing in the store, and its answer is as the handler gave it, unless a body that should be stored breaks off. |
| CacheAnswers.StoredIsHit | rapina/src/cache.rs:279-282 | A GET whose key is stored and has not expired is answered with the stored status and body and `x-cache: HIT`. |
| CacheAnswers.HitValues | rapina/src/cache.rs:316-321 | A hit gives out every other header value as it was if it is printable, and empty if not. |
| CacheAnswers.MutationClears | rapina/src/cache.rs:343-357 | After POST, PUT, DELETE or PATCH with a status from 200 to 299 exactly the keys under the prefixes are gone; after any other request that is no GET the store is as it was. |
| CacheHits.HappensIsRun | rapina/src/cache.rs:259-358 | A run with its worlds, stores and clock readings spelled out is a run of the middleware. |
| CacheHits.SecondGetHits | rapina/src/cache.rs:259-358 | In every run from an empty store, a stored answer is given again, with status and body and marked as a hit, to any later GET of its key within its time to live, while fewer than `max_entries` answers were stored and no matching mutation succeeded in between. |
| CacheSimulation.FetchAgreesIff | rapina/src/cache.rs:284-338 | After a miss the answer agrees with the handler exactly when it is not cached or its body can be collected. |
| CacheSimulation.InvalidationCoherent | rapina/src/cache.rs:347-354 | After a successful mutation every remaining entry is what its handler would answer now. |
| CacheSimulation.OneRequest | rapina/src/cache.rs:259-358 | One request: the answer agrees with the plain server, the world is the same, and the store stays coherent. |
| CacheSimulation.CacheIsTransparent | rapina/src/cache.rs:259-358 | Over every run, whatever the clock reads and whatever is evicted, each answer agrees with the server without the middleware. |
| CacheSimulation.FreshCacheIsTransparent | rapina/src/cache.rs:259-358 | The same from an empty cache and any world. |
| CacheSimulation.TextAnswersAreSame | rapina/src/cache.rs:259-358 | An answer whose header values are plain text is the same, header for header, from a hit too. |
| CursorPagination.Extract | rapina/src/pagination.rs:289-331 | A request is accepted exactly with at most one token, a token that decodes, and a limit within bounds. |
| CursorPagination.DefaultLimit | rapina/src/pagination.rs:299-302 | A request without a limit asks for the configured default, or 20 rows. |
| CursorPagination.RefusedIff | rapina/src/pagination.rs:303-319 | Which requests are refused, and for what; the largest limit is the configured one, or 100. |
| CursorPagination.RunQuery | rapina/src/pagination.rs:443-459 | The rows between the cursors, `limit + 1` of them from the near end. |
| CursorPagination.ExecBy | rapina/src/pagination.rs:436-500 | The page of the rows: trimmed at the far end, with both tokens. |
| CursorWalks.FirstPage | rapina/src/pagination.rs:436-500 | A request without tokens gives the first page of the grid. |
| CursorWalks.NextPage | rapina/src/pagination.rs:453-500 | The next token leads to the page one limit further. |
| CursorWalks.PrevPage | rapina/src/pagination.rs:453-500 | The previous token leads to the forward page before, equal in data and in both tokens. |
| CursorWalks.StepOnGrid | rapina/src/pagination.rs:453-500 | From any page of the forward grid a move leads to its neighbour, and is refused at the ends. |
| CursorWalks.MovesStayOnGrid | rapina/src/pagination.rs:453-500 | Any mix of next and previous moves stays on the forward grid; every page reached is a forward page with its tokens. |
| CursorWalks.ServedWalkIs | rapina/src/pagination.rs:436-500 | Asking for the first page and following next tokens to the end serves exactly the pages of the forward grid. |
| CursorWalks.ForwardWalkRows | rapina/src/pagination.rs:436-500 | The pages served on that walk concatenate to the whole table. |
| CursorWalks.ForwardWalkPages | rapina/src/pagination.rs:436-500 | The walk is served in the page count of the table. |
| CursorWalks.PageCountIs | rapina/src/pagination.rs:453-500 | That count is the number of rows divided by the limit, rounded up, and at least one. |
| CursorWalks.LargestLimitFetchesNothing | rapina/src/pagination.rs:453 | In a build without overflow checks the largest limit of all fetches no row. |
| CursorWalks.FirstPageIff | rapina/src/pagination.rs:453 | Among the accepted limits it is the only one that does not serve the first page, and only of a table with rows. |
| CursorWalks.ForwardInterval | rapina/src/pagination.rs:436-500 | A forward page holds exactly the rows above its token and up to the token it gives out. |
| CursorWalks.CollectedIncrease | rapina/src/pagination.rs:436-500 | Over a table that changes between requests, the collected keys strictly increase: no row twice. |
| CursorWalks.CollectedComplete | rapina/src/pagination.rs:436-500 | A walk that finishes returns every key that every state holds. |
| CursorBackwards.PageMirrored | rapina/src/pagination.rs:436-500 | A backward page is the mirror image of the forward page of the mirrored table, and its previous token is the next token there. |
| CursorBackwards.CollectedBackIncrease | rapina/src/pagination.rs:436-500 | Over a table that changes between requests, a walk by previous tokens repeats no row either. |
| CursorBackwards.CollectedBackComplete | rapina/src/pagination.rs:436-500 | If it finishes it returns every key below its first token that every state holds. |
| CursorRanges.RangeServed | rapina/src/pagination.rs:436-500 | Between any two bounds, in either direction, a page holds the first rows, or backward the last ones, with exactly the tokens it should have. |
| OffsetPagination.ExtractPage | rapina/src/pagination.rs:123-153 | A request is accepted exactly with a page of at least one and a page size within bounds, and asks for that page and size. |
| OffsetRequests.Defaults | rapina/src/pagination.rs:133-137 | A request without a page asks for page one, one without a size for the configured default, or 20. |
| OffsetRequests.RefusedIff | rapina/src/pagination.rs:139-151 | Which requests are refused, and for what; the largest size is the configured one, or 100. |
| OffsetRequests.PageServed | rapina/src/pagination.rs:123-193 | A request for a page that has a row is answered with the rows from `(page - 1) * size` on, at most `size`, and the numbers that belong to it. |
| OffsetRequests.RequestsPartition | rapina/src/pagination.rs:123-193 | The requests from page one to the last return the whole result in order. |
| OffsetPagination.OffsetWithin | rapina/src/pagination.rs:174 | The offset of every page up to the last is below the total, so it cannot overflow. |
| OffsetPagination.PageOfResult | rapina/src/pagination.rs:159-193 | A page is the next rows of the result, full unless it is the last; `has_next` holds exactly when a later row exists, `has_prev` exactly when an earlier one does. |
| OffsetPagination.PagesPartition | rapina/src/pagination.rs:159-193 | Pages one to `total_pages` partition the result in order. |
| OffsetPagination.BeyondTheEnd | rapina/src/pagination.rs:159-193 | Past the last page there is no next page, and the page is empty exactly when its 64-bit offset lies beyond the result. |
| OffsetPagination.WrapsToFirst | rapina/src/pagination.rs:174 | A page whose offset is a multiple of 2^64 is the first page again. |
| OffsetPagination.FarPageServesFirst | rapina/src/pagination.rs:174 | Such a page past the end, with rows: number 2^63 + 1, two rows a page. |
| SchemaSource.LineIter.Next | rapina-cli/src/commands/schema_source.rs:22-24 | Hands out the lines one by one. |
| SchemaSource.ApplyEntityAttrs | rapina-cli/src/commands/schema_source.rs:71-74 | The attributes applied one after another. |
| SchemaSource.ColumnFrom | rapina-cli/src/commands/schema_source.rs:92-97 | The column named by the last `column` attribute. |
| SchemaSource.ReadHeader | rapina-cli/src/commands/schema_source.rs:44-60 | Attributes up to the entity name, the end of the block, or the error for a missing end. |
| SchemaSource.ReadFields | rapina-cli/src/commands/schema_source.rs:79-105 | The fields up to the closing brace. |
| SchemaSource.ParseNextEntity | rapina-cli/src/commands/schema_source.rs:41-108 | The loop reads the next entity as the specification function does, and leaves the same lines. |
| SchemaSource.ReadSchemaContent | rapina-cli/src/commands/schema_source.rs:20-39 | The loop over lines computes the parse. |
| SchemaCodegen.TakeBlock | rapina-cli/src/commands/codegen.rs:610-621 | Collects lines until the braces balance or the text ends. |
| SchemaCodegen.CollapseBlankLines | rapina-cli/src/commands/codegen.rs:636-639 | The collapse of blank lines terminates in its fixed point. |
| SchemaCodegen.RemoveBlocks | rapina-cli/src/commands/codegen.rs:602-642 | The loop removes the blocks that mention the name. |
| SchemaCodegen.EntityFile.Update | rapina-cli/src/commands/codegen.rs:663-702 | The file content after an update, forced or not, with or without a file. |
| CoreLines.ReplaceShortens | rapina-cli/src/commands/codegen.rs:637-639 | Each replacement shortens a text that still has three newlines in a row, so the collapse terminates. |
| CoreLines.CoreCollapse | rapina-cli/src/commands/codegen.rs:636-639 | The collapse changes no line that is not blank. |
| SchemaCore.ParseSeesCore | rapina-cli/src/commands/schema_source.rs:20-108 | The parse depends only on the trimmed lines that are not blank. |
| SchemaCore.RemoveLinesCore | rapina-cli/src/commands/codegen.rs:608-634 | The editor, too, sees only those lines. |
| SchemaCore.EditSeesCore | rapina-cli/src/commands/codegen.rs:602-642 | Editing and then looking at those lines is looking at them and then editing. |
| SchemaChunks.OutsideThen | rapina-cli/src/commands/schema_source.rs:20-108 | Where the parser is outside of a block again at the end of some lines, what follows is parsed as if it stood alone. |
| SchemaChunks.ParseFile | rapina-cli/src/commands/schema_source.rs:20-39 | A file in which parser and editor agree where each block ends, in whatever layout, parses to the entities of its parts in order, or to the error when there is none. |
| SchemaUpsert.NoBlocksRefused | rapina-cli/src/commands/schema_source.rs:33-35 | A text without a block is refused with that message. |
| SchemaUpsert.UnclosedRefused | rapina-cli/src/commands/schema_source.rs:44-45 | A text that ends inside of a block is refused with the other, whatever was read before. |
| SchemaChunks.EditFile | rapina-cli/src/commands/codegen.rs:602-642 | The edited file is the file without the blocks that mention the name; all other lines stay. |
| SchemaChunks.FileIff | rapina-cli/src/commands/codegen.rs:608-634 | The texts that are such files are exactly those in which the parser is outside again after each of the editor blocks and each stretch between them. |
| SchemaFiles.EntriesBlock | rapina-cli/src/commands/codegen.rs:624-626 | A block in the layout of the printer, of any number of entities, is read as those entities, and is taken out exactly when the name of one of them ends with the given name, or `schema!` does. |
| SchemaFiles.CommentTakesName | rapina-cli/src/commands/schema_source.rs:44-60 | A comment line in front of an entity is read as its name, and its attributes are lost; the editor still finds the block by the name it was given. |
| SchemaFiles.TightBlock | rapina-cli/src/commands/codegen.rs:609 | A block that opens with `schema!{` is read by the parser and never taken out by the editor. |
| SchemaAttributes.EntityMeans | rapina-cli/src/commands/schema_source.rs:41-148 | Of an entity written with attributes the last table name, the last key list and the timestamps decide, and of each field its own last column name, whatever else stands in between. |
| SchemaAttributes.WrittenFileMeans | rapina-cli/src/commands/schema_source.rs:20-148 | So it does in a file, between any other parts. |
| SchemaRoundTrip.PrintedCore | rapina-cli/src/commands/codegen.rs:450-506 | A printed block, line by line, is a block of one entity. |
| SchemaRoundTrip.PrintedEntity | rapina-cli/src/commands/codegen.rs:450-506 | Reading a printed block gives back name, fields with type text, key list and timestamp flags; an empty key list comes back as one empty column. |
| SchemaUpsert.PrintedFileParses | rapina-cli/src/commands/schema_source.rs:20-148 | Any header followed by any number of printed blocks parses to exactly the printed entities, in order. |
| SchemaUpsert.RoundTripExactly | rapina-cli/src/commands/codegen.rs:450-506 | A block round-trips exactly when it does not carry an empty key list. |
| SchemaFields.TypeRead | rapina-cli/src/commands/codegen.rs:463 | The type text of a column stands for its type and whether it may be null, all fifteen types apart. |
| SchemaFields.PrintedFileSays | rapina-cli/src/commands/codegen.rs:450-506 | What is parsed from a printed file has, field by field, the names and types of the columns and then of the relationships, the key list and the timestamps. |
| SchemaUpsert.ForcedUpdate | rapina-cli/src/commands/codegen.rs:663-702 | A forced update of any such file drops the blocks that mention the new name, keeps the other entities in order, and puts the new one last. |
| SchemaUpsert.UpsertExactly | rapina-cli/src/commands/codegen.rs:663-702 | It is a true upsert exactly when every dropped block holds nothing but entities of the new name and what is kept holds none. |
| SchemaUpsert.UserTakesOthers | rapina-cli/src/commands/codegen.rs:602-642 | A file on which it is not: an update of `User` loses a `SuperUser`, or a `Post` in the same block as a `User`. |
| SchemaUpsert.TightBlockStays | rapina-cli/src/commands/codegen.rs:602-642 | Another: a block that opens with `schema!{` keeps its entities, so that the file can have two of one name. |
| SchemaUpsert.UpdateTwice | rapina-cli/src/commands/codegen.rs:663-702 | Running the same forced update again changes nothing in the parse. |
| SchemaUpsert.RunHolds | rapina-cli/src/commands/codegen.rs:663-702 | Over every run of forced and unforced updates of any such file the blocks with entities are exactly those the updates describe. |
| SchemaUpsert.RunParses | rapina-cli/src/commands/codegen.rs:663-702 | From no file, the file after any run parses to the list in which each forced update replaces the entities whose name ends with the new one. |
| SchemaUpsert.RunIsLast | rapina-cli/src/commands/codegen.rs:663-702 | The last entity written is the last of that list. |
| SchemaFields.RunSays | rapina-cli/src/commands/codegen.rs:663-702 | And so has what is parsed after any run of updates, entity by entity. |
| SchemaFields.UpdateSays | rapina-cli/src/commands/codegen.rs:663-702 | A forced update of any such file ends it with an entity that says what the update says. |
| SchemaUpsert.ImportOnce | rapina-cli/src/commands/codegen.rs:682-696 | After every update the file imports the macro; an import it has stays as it is, one it lacks goes in front. |
| AgentsBlock.BlockParses | rapina-cli/src/commands/agents.rs:289-335 | A wrapped block between a text free of markers and any text parses back to version, hash and content, and the positions delimit it exactly; newlines at the ends of the content survive. |
| AgentsBlock.PanicsIff | rapina-cli/src/commands/agents.rs:289-335 | On any text at all the parse panics exactly when the header it reads ends behind the first end marker. |
| AgentsBlock.LostArrowPanics | rapina-cli/src/commands/agents.rs:298-322 | A block whose begin line has lost its arrow is such a text, with nothing wrong in front of it. |
| AgentsBlock.StrayEndPanics | rapina-cli/src/commands/agents.rs:321-322 | With the block itself intact, the parse panics exactly when an end marker stands in front of it. |
| AgentsBlock.ParsedShape | rapina-cli/src/commands/agents.rs:289-335 | Whatever text a block is found in, its positions are in order and no marker stands in front of it. |
| AgentsFound.BlockFoundIff | rapina-cli/src/commands/agents.rs:289-322 | On any text a block is found exactly when the first begin marker is followed by two words and an arrow, and an end marker stands anywhere. |
| AgentsFound.BlockSays | rapina-cli/src/commands/agents.rs:289-335 | What is found: the two words without their marks, the text up to the first end marker without one newline, and the places of both markers. |
| AgentsFix.ProjectFiles.Fix | rapina-cli/src/commands/agents.rs:449-534 | What a fix writes or refuses; an existing CLAUDE.md is never overwritten. |
| AgentsFix.DriftOfBlock | rapina-cli/src/commands/agents.rs:372-425 | The check compares the block with the rules the tool would write now. |
| AgentsFix.WithoutBlock | rapina-cli/src/commands/agents.rs:372-390 | A missing file, and one without the begin marker, are answered as such; a fix writes the block. |
| AgentsFix.OutsideProject | rapina-cli/src/commands/agents.rs:392-404 | Outside of a project a readable block is not judged. |
| AgentsFix.InsideProject | rapina-cli/src/commands/agents.rs:392-404 | Inside of one every block is. |
| AgentsFix.NoCargoTomlIff | rapina-cli/src/commands/agents.rs:463-492 | A fix is refused for want of Cargo.toml exactly where there is none. |
| AgentsFix.WrapText | rapina-cli/src/commands/agents.rs:192-202 | The text of a written block, in full. |
| AgentsFix.FixKeepsOutside | rapina-cli/src/commands/agents.rs:511-516 | A written fix leaves the text before and after the block byte for byte, and the block is the current, unedited one. |
| AgentsFix.WrittenIsCurrent | rapina-cli/src/commands/agents.rs:372-425 | A text with a freshly written block is up to date, and a fix changes no byte of it. |
| AgentsFix.FixSettles | rapina-cli/src/commands/agents.rs:449-534 | After any successful fix, of a missing file too, the check reports up to date and a second fix, forced or not, changes no byte. |
| AgentsFix.DriftMeaning | rapina-cli/src/commands/agents.rs:407-424 | Up to date, stale and edited mean what they say, and an unforced fix refuses exactly the edited blocks. |
| AgentsFix.EditIsNoticed | rapina-cli/src/commands/agents.rs:499-507 | An edit between the markers is noticed, an edit around them is not. |
| AgentsFix.PanicsOnOverrun | rapina-cli/src/commands/agents.rs:372-520 | Check and fix panic on exactly those texts. |
| AgentsFix.LostArrowStops | rapina-cli/src/commands/agents.rs:372-520 | Both panic on a written block that has lost its arrow, whatever stands around it and inside. |
| AgentsFix.OutsideKeptIff | rapina-cli/src/commands/agents.rs:511-518 | A written fix keeps what stands outside the markers exactly when the file has a block or is empty; any other file is replaced whole. |
| AgentsFix.RunRespects | rapina-cli/src/commands/agents.rs:449-534 | Over every run of arbitrary edits, upgrades and unforced fixes, the text around the block is as the user left it last, and a block edited inside is never overwritten. |
| AgentsFix.FixEndsRun | rapina-cli/src/commands/agents.rs:449-534 | A fix after any run leaves a file up to date with the rules installed last, unless the block was edited or cannot be read. |
| AgentsDiff.CountLines | rapina-cli/src/commands/agents.rs:546-551 | The count table holds the multiplicity of every line. |
| AgentsDiff.Emit | rapina-cli/src/commands/agents.rs:560-583 | The loop prints the surplus lines in their order. |
| AgentsDiff.SimpleDiff | rapina-cli/src/commands/agents.rs:541-588 | The printed difference, or the fallback message when nothing is printed. |
| AgentsDiff.DiffIsExact | rapina-cli/src/commands/agents.rs:541-588 | Removals are a subsequence of the old lines, additions of the new; old minus removals plus additions is new, as multisets; no line is on both sides. |
| AgentsDiff.SubsequencePlaces | rapina-cli/src/commands/agents.rs:541-588 | Printed lines stand at rising places of their source. |
| AgentsDiff.EndsAreNoDifference | rapina-cli/src/commands/agents.rs:541-588 | Texts that differ only in their line ends, carriage returns or not, have no difference to print. |
| AgentsDiff.DiffText | rapina-cli/src/commands/agents.rs:560-583 | The text is the removed lines, each behind a minus, and then the added lines, each behind a plus. |
| AgentsDiff.FallbackIff | rapina-cli/src/commands/agents.rs:584-586 | The fallback message appears exactly when both texts have the same lines equally often. |
| RelayChannels.RegisteredMatches | rapina-macros/src/relay.rs:17-22 | A pattern that ends in a star takes exactly the topics that start with the rest of it, any other its own text. |
| RelayChannels.CompareIsTotal | rapina/src/app.rs:994-999 | The comparison is a total preorder. |
| RelayChannels.CompareMeans | rapina/src/app.rs:994-999 | Exact patterns come first, in text order, then prefixes, longer ones first. |
| RelayChannels.SortOrders | rapina/src/app.rs:991-1000 | The sorted list is ordered and holds the registered channels. |
| RelayChannels.RelayHub.constructor | rapina/src/app.rs:991-1002 | The hub holds the sorted channels. |
| RelayChannels.RelayHub.FindChannel | rapina/src/relay/hub.rs:88-90 | The loop finds the first channel that matches. |
| RelayChannels.SortedDispatch | rapina/src/app.rs:987-1000 | The first match of the sorted list is the most specific match of the registered list. |
| RelayChannels.MostSpecificMeans | rapina/src/relay/channel.rs:83-89 | No channel exactly when no pattern matches; otherwise the exact pattern if there is one, else the longest matching prefix. |
| RelayChannels.EquallySpecific | rapina-macros/src/relay.rs:17-22 | Two channels that match a topic equally well have the same pattern. |
| RelayChannels.OrderDoesNotMatter | rapina/src/app.rs:987-1000 | With distinct patterns the channel of a topic is the same for every permutation of the registered list. |
| RelayChannels.FirstRegistrationWins | rapina/src/app.rs:991-1000 | Of the handlers registered for a pattern, among any others, only the first registered ever runs. |
| RelayChannels.OrderMattersIff | rapina/src/app.rs:987-1000 | A topic goes to the same channel under every order of registration exactly when its pattern has no second handler. |
| OpenApiDiff.ChangeReport.CheckRemovedMethods | rapina-cli/src/commands/openapi.rs:200-224 | The report grows by the lost and gained methods. |
| OpenApiDiff.ChangeReport.CheckResponseChanges | rapina-cli/src/commands/openapi.rs:227-261 | The report grows by the changes of the 200 JSON schemas. |
| OpenApiDiff.ChangeReport.CheckFields | rapina-cli/src/commands/openapi.rs:270-291 | The report grows by the lost and gained property names. |
| OpenApiDiff.ChangeReport.CheckSchemaChanges | rapina-cli/src/commands/openapi.rs:264-303 | The report grows by the changes of properties and type. |
| OpenApiDiff.ChangeReport.CheckEndpoint | rapina-cli/src/commands/openapi.rs:172-185 | The report grows by the removal or the changes of one endpoint. |
| OpenApiDiff.CheckEndpoints | rapina-cli/src/commands/openapi.rs:171-185 | The report grows by the changes of all endpoints of the old specification. |
| OpenApiDiff.CheckNewEndpoints | rapina-cli/src/commands/openapi.rs:187-194 | The report grows by the endpoints that are new. |
| OpenApiDiff.SameMembers | rapina-cli/src/commands/openapi.rs:293-303 | Types that are objects are equal exactly when they have the same members. |
| OpenApiDiff.DetectBreakingChanges | rapina-cli/src/commands/openapi.rs:161-197 | The report of two specifications; nothing unless both have an object of paths. |
| OpenApiMeaning.ReportMeans | rapina-cli/src/commands/openapi.rs:161-303 | The breaking part holds exactly the breaking changes, the other exactly the additions, both defined without loops. |
| OpenApiOnce.ReportedOnce | rapina-cli/src/commands/openapi.rs:161-303 | No change is reported twice, nor on both sides. |
| OpenApiMeaning.SwapMirrors | rapina-cli/src/commands/openapi.rs:161-303 | Swapping the specifications turns removals into additions and back, and leaves type changes breaking. |
| OpenApiMeaning.NothingReportedIff | rapina-cli/src/commands/openapi.rs:161-303 | Nothing is reported exactly when the specifications agree on endpoints, on the five methods, and on property names and type wherever both give them. |
| OpenApiReach.ReportReaches | rapina-cli/src/commands/openapi.rs:161-303 | Place by place in the two documents: an endpoint, one of five methods, or a property of the JSON schema of a 200 response that is gone, or its type that is another, is reported as breaking, and what is new as an addition; nothing else is. |
| OpenApiReach.NothingReachesIff | rapina-cli/src/commands/openapi.rs:161-303 | Nothing is reported exactly when one document has no object of paths, or all these places agree. |
| MigrationsFile.ValidateName | rapina-cli/src/commands/migrate.rs:47-66 | An accepted name is lower-case alphanumeric with underscores. |
| MigrationsFile.NameAcceptedIff | rapina-cli/src/commands/migrate.rs:47-66 | A name is accepted exactly when it is not empty, holds only lower-case letters, digits and underscores, and has no underscore at an end; what is wrong with any other is named. |
| MigrationsFile.MigrationsDir.UpdateMod | rapina-cli/src/commands/migrate.rs:94-129 | The module file after one migration. |
| MigrationsFile.MigrationsDir.NewMigration | rapina-cli/src/commands/migrate.rs:6-45 | Refused names and taken file names change nothing; otherwise file and module file grow. |
| MigrationsFile.MigrationsDir.CreateMigrationFile | rapina-cli/src/commands/codegen.rs:704-735 | The migration of a generated resource, which may overwrite a file. |
| MigrationsFile.MigrationsDir.Init | rapina-cli/src/commands/jobs.rs:15-56 | `jobs init`: nothing if configured, else import and entry. |
| MigrationsFile.LayoutGrows | rapina-cli/src/commands/migrate.rs:131-144 | Prepending a head line and inserting the entry gives the layout with one more entry at the end. |
| MigrationsByHand.MigrationText | rapina-cli/src/commands/migrate.rs:94-129 | The text of a fresh module file in full; the declaration at the end of a file without the macro, and in front of any other. |
| MigrationsByHand.JobsText | rapina-cli/src/commands/jobs.rs:69-80 | The text `jobs init` writes without a file. |
| MigrationsByHand.MigrationListedIff | rapina-cli/src/commands/migrate.rs:94-144 | For a module file of any text, comments and strings aside, the macro lists the old entries and then the new one exactly when it is written with one blank and a brace, is closed, no brace stands behind its own, and its last entry has its comma. |
| MigrationsByHand.CommentedEntry | rapina-cli/src/commands/migrate.rs:131-144 | Such a file: whatever the comment behind the last comma says, braces and commas included. |
| MigrationsByHand.EntryPlacedIff | rapina-cli/src/commands/migrate.rs:131-144 | In any file that mentions the macro, the entry stands right before the brace that closes it exactly when it is found and closed, and no brace stands behind that, not even in a comment. |
| MigrationsByHand.LaterBraceTakesEntry | rapina-cli/src/commands/migrate.rs:134 | A file on which it does not: any closed macro with a later closing brace, which takes the entry; the macro lists what it did before. |
| MigrationsByHand.MissingCommaMerges | rapina-cli/src/commands/migrate.rs:138 | Another: behind an entry without a comma the new one runs into it; the last entry becomes the old one followed by blanks and the new name. |
| MigrationsRuns.ConfiguredIff | rapina-cli/src/commands/jobs.rs:59-61 | `jobs init` takes a file for configured exactly when some entry mentions its migration. |
| MigrationsRuns.RunFollowsPlan | rapina-cli/src/commands/migrate.rs:94-144 | Over every run of commands the file is the layout of the planned entries. |
| MigrationsRuns.EachOnceIff | rapina-cli/src/commands/migrate.rs:20-23 | No migration is listed twice exactly when no generated migration takes a file name in use; `migrate new` checks that itself. |
| MigrationsRuns.JobsAtMostOnce | rapina-cli/src/commands/jobs.rs:15-67 | The jobs migration is listed at most once, whatever the migrations are called. |
| MigrationsByHand.JobsEntryIff | rapina-cli/src/commands/jobs.rs:25-67 | After `jobs init` on any file, or none, the macro lists the jobs migration exactly when there was no file, or it listed it before, or the file did not mention its name and was ready for an entry. |
| MigrationsByHand.LayoutReady | rapina-cli/src/commands/migrate.rs:94-144 | A generated file is always ready. |
| MigrationsByHand.JobsListedIff | rapina-cli/src/commands/jobs.rs:63-67 | For a file of any text without the jobs name, `jobs init` gets its migration listed under the same condition; a file without the macro gets the import and nothing else. |
| MigrationsByHand.JobsInitOnce | rapina-cli/src/commands/jobs.rs:25-67 | After `jobs init` any file counts as configured, listed or not, and a second run changes nothing. |
| MigrationsRuns.JobsShadowed | rapina-cli/src/commands/jobs.rs:59-61 | Any accepted migration name that contains `create_rapina_jobs` keeps `jobs init` from adding its entry. |
| MigrationsRuns.JobsNameIsAccepted | rapina-cli/src/commands/migrate.rs:47-66 | Such a name is accepted by the name check. |
| MigrationsRead.MacroLists | rapina-cli/src/commands/migrate.rs:131-144 | Read back, the macro lists the entries in order of addition. |
| MigrationsRead.DeclaresEntries | rapina-cli/src/commands/migrate.rs:101-124 | Read back, each entry is declared once in front of the macro, newest first. |
| MigrationsRead.RunReadsBack | rapina-cli/src/commands/migrate.rs:94-144 | Over every run from no file, the macro reads back as the planned entries in order, and the declarations as the same list, newest first. |

## Left out

- Interleavings inside a cache call: each call is atomic apart from its clock readings, and requests come one at a time; `evict_if_full` and `insert` are separate steps in the source, so the capacity bound is a sequential claim.
- Clock arithmetic: readings are parameters and instants do not overflow; the source's `Instant + Duration` can panic on a time to live near the 64-bit maximum.
- CacheLimits.SetIsRetainedInRuns: sets come at strictly increasing times, since entries created in the same instant may be evicted in any order.
- CacheSimulation.CacheIsTransparent: compares status, body and the values of every header name; the order of headers of different names, and header values that are not plain text on a hit, are not compared.
- CacheServer.CacheMiddleware.Handle: handlers are functions of request and state; streaming, body collection and the HTTP library are the cases of one datatype.
- Redis as a cache backend, the router, the job worker, the rate limiter and the accept loop: library input and output.
- CursorPagination.Extract: takes the query already split into its parameters; the parsing of the query text, Base64 and JSON are not modelled, and a token is any faithful encoding of a key.
- CursorPagination.RunQuery: the database query is filter and take over a sorted sequence; columns with repeated values are outside what the code guarantees.
- CursorWalks.MovesStayOnGrid: requires the limit plus one to fit in 64 bits; CursorWalks.FirstPageIff shows that the remaining limit fails.
- OffsetPagination.PageOfResult: page and count see the same rows; they are two queries in the source and may see different ones.
- SchemaChunks.ParseFile: covers the texts that SchemaChunks.FileIff names; where the editor's block ends elsewhere than the parser's (a block on one line, an unclosed block, braces in a comment that do not pair up) an edit can shift what is read, which is not described.
- SchemaRoundTrip.PrintedEntity: names, key columns and related names are any text that a line can carry, without braces, line breaks or blanks at the ends (a field name also without a colon, a key column without a comma); names that the importers take from raw table names are covered as far as they are such text; field types are those the printer knows.
- Pluralisation, name casing, handlers, DTO, error and migration templates: text without interplay.
- SchemaCodegen.TakeBlock: the brace depth is unbounded; the source counts in 32 bits.
- AgentsBlock.BlockParses: positions count characters where the source counts bytes; a version does not start with the letter v and the hash is lower-case hexadecimal.
- AgentsFix.ProjectFiles.Fix: composing the rules from the project's features, reading Cargo.toml and writing `.rapina-docs` are parameters or left out.
- AgentsFix.RunRespects: forced fixes are not events of a run, since they overwrite edits on purpose.
- RelayChannels.SortOrders: the library's stable sort is modelled as an insertion sort on values, not in place.
- OpenApiDiff.DetectBreakingChanges: entries of the report are values; their wording and the output are not modelled, nor are fetching and canonical printing of specifications.
- MigrationsByHand.MigrationListedIff: a macro written otherwise than with one blank and a brace counts as listing nothing; raw strings and character literals that hold a quote are not told apart from plain strings, and doc comments count as comments.
- MigrationsFile.MigrationsDir.NewMigration: the timestamp is a parameter, and writing the migration file itself is the set of file names.
- Reading and writing of files, console output, git and cargo: files are string fields.
- Proc-macro token generation, environment configuration, authentication and application state.
