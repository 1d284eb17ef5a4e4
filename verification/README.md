# Generic view and procedure engine of minova CAS, in Dafny

CAS answers two kinds of requests on a runtime-typed `Table`:

- **View requests** become a SQL `SELECT` statement. The request holds a view name, the requested columns and search rows. Each search row carries values, optional rules and an AND marker column. The statement then receives its `?` parameters in order.
- **Procedure requests** become a JDBC call `{? = call Name(?,?)}`. The call runs once per input row. The merged result set, the output-parameter rows and the return codes are gathered into one result.

Security is layered on top. The caller's security tokens are resolved from the user and group stores. A privilege row must exist for the view or procedure. Column security removes the columns the caller may not see. Row-level security adds a `SecurityToken` condition to view statements and filters procedure results.

The model is functional. Every database lookup is a parameter of the operation that performs it, and so is the caller's identity:

- the privilege rows found for a caller, `grants`;
- the column-security search, `lookup`;
- the user and group searches, `entry` and `groups`;
- whether the privilege store exists, `storesSetup`;
- the database's answer to each procedure call, `execute`;
- the WHERE and row-level-security delegates of the view service;
- the tokens of the security context, `callerTokens` and `tokens`.

Modules, one per part of the engine:

| module | part of the engine |
|---|---|
| `Text` | Java string operations: `trim`, `split`, `contains`, `toLowerCase`, `Integer.toString` |
| `Domain` | `Table`, `Column`, `Row`, `Value`, privilege rows (`Grant`), the error kinds |
| `WhereClause` | `prepareWhereClause` of the view controller |
| `Binding` | `fillPreparedViewString`, and the agreement between the placeholders the WHERE builder emits and the texts the binder supplies |
| `ViewStatement` | projection, `prepareViewString`, `pagingWithSeek`, `rowLevelSecurity` |
| `ColumnSecurity` | `columnSecurity` |
| `Paging` | page and limit validation, and the page windows |
| `IndexView` | `getIndexView`, `getPrivilegePermissions`, `getTableForSecurityCheck` |
| `ViewService` | `executeView` and the service's `pagingWithSeek` |
| `TokenResolver` | `loadPrivileges` |
| `RowSecurity` | `findSecurityTokenColumn`, `checkRowForValidSecurityToken` |
| `ProcedureCall` | `prepareProcedureString` |
| `ProcedureRows` | result-set column typing, and the paging and token filter of result rows |
| `ProcedureExecution` | `fillCallableSqlProcedureStatement`, and the output row, return codes and merge of `calculateSqlProcedureResult` |
| `Authorization` | extension registration and the authorisation decision of `executeProcedure` |

Java `null` is `None` for a value in a row, a missing result set and a missing return code. String payloads (`StringData`) and privilege rows (`Grant`) are never null in the model (see "Left out"). A runtime exception is an `Err` of the matching kind:

| Dafny error | Java exception |
|---|---|
| `IllegalArgument` | `IllegalArgumentException` |
| `NullReference` | `NullPointerException` |
| `IndexOutOfBounds` | `IndexOutOfBoundsException` |
| `PermissionDenied` | the "Insufficient Permission" runtime exception of `getIndexView` (SqlViewController.java:50) |
| `InsufficientColumnAccess` | the "Insufficient Permission" runtime exception of `columnSecurity` (SqlViewController.java:441) |
| `PrivilegeError` | `msg.PrivilegeError` |
| `Failure` | a runtime exception with a message key or message, such as "Could not parse input parameter with index:" |
| `TableException` | the `TableException` the view service wraps every failure in (ViewService.java:115-117) |
| `Rethrown` | the `RuntimeException(e)` that `getTableForSecurityCheck` wraps a failure in (SqlViewController.java:248-250) |

Integers are unbounded.

## Model

In the source column, `V` stands for `aero.minova.core.application.system.service/src/main/java/aero/minova/core/application/system/controller/SqlViewController.java`, `P` for `aero.minova.core.application.system.service/src/main/java/aero/minova/core/application/system/controller/SqlProcedureController.java` and `S` for `service/src/main/java/aero/minova/cas/service/ViewService.java`; the cells spell the paths out.

| member | source | states |
|---|---|---|
| WhereClause.AndFieldIndex | aero.minova.core.application.system.service/src/main/java/aero/minova/core/application/system/controller/SqlViewController.java:459-470 | The AND flag is read from the first column named exactly like the marker; no earlier column has that name, and without one there is no marker at all |
| WhereClause.PrepareWhereClause | aero.minova.core.application.system.service/src/main/java/aero/minova/core/application/system/controller/SqlViewController.java:455-556 | Fails exactly when some row has more values than columns or an unreadable AND flag. Otherwise it returns the template with only the auto-like patterns written back, still well-formed, and a WHERE text that is empty or opens with `where (` |
| WhereClause.WhereReadable | aero.minova.core.application.system.service/src/main/java/aero/minova/core/application/system/controller/SqlViewController.java:471-479 | The first k rows build exactly when each has a readable AND flag (a boolean in the marker cell) and fits the column list |
| WhereClause.WhereOpening | aero.minova.core.application.system.service/src/main/java/aero/minova/core/application/system/controller/SqlViewController.java:545-552 | After any number of rows the WHERE text is empty or starts with `\r\nwhere (` |
| WhereClause.AttachKeepsOpening | aero.minova.core.application.system.service/src/main/java/aero/minova/core/application/system/controller/SqlViewController.java:545-552 | Adding a row clause keeps an empty or `where (`-opened text in that shape |
| WhereClause.CellContribution | aero.minova.core.application.system.service/src/main/java/aero/minova/core/application/system/controller/SqlViewController.java:483-541 | A cell adds a term exactly when it is not the AND marker, not null, and has a non-blank value or a blank value whose rule asks for `null` or `!null` |
| WhereClause.ValueTermShape | aero.minova.core.application.system.service/src/main/java/aero/minova/core/application/system/controller/SqlViewController.java:483-541 | A value's term is empty or starts with its column name and a space. The value written back is never null and keeps its rule |
| WhereClause.CellTermShape | aero.minova.core.application.system.service/src/main/java/aero/minova/core/application/system/controller/SqlViewController.java:483-541 | Only a non-null value outside the AND column yields a term, and that term starts with the column name. A cell written back is null exactly when it was null, and keeps its rule |
| WhereClause.AutoLikeWidens | aero.minova.core.application.system.service/src/main/java/aero/minova/core/application/system/controller/SqlViewController.java:517-526 | With auto-like, a rule-less non-blank string without `%` is written back as its trimmed text plus `%` and compared with `like ?`; every other cell is written back unchanged |
| WhereClause.WhereIsRenderedContributions | aero.minova.core.application.system.service/src/main/java/aero/minova/core/application/system/controller/SqlViewController.java:471-553 | The WHERE text equals an independent closed form. Rows with an empty clause add nothing, and the first contributing row opens `where`. Later rows follow with `and` when their flag is set and `or` otherwise. Each clause is parenthesised |
| WhereClause.RenderWhereEmpty | aero.minova.core.application.system.service/src/main/java/aero/minova/core/application/system/controller/SqlViewController.java:545-552 | The WHERE text is empty exactly when no row contributes |
| Binding.BindValue | aero.minova.core.application.system.service/src/main/java/aero/minova/core/application/system/controller/SqlViewController.java:138-180 | One value's `setString` calls, with the source's running offset, bind its texts to consecutive parameters starting at `i + offset`. The next offset accounts for exactly the parameters used |
| Binding.ValueBindingsShape | aero.minova.core.application.system.service/src/main/java/aero/minova/core/application/system/controller/SqlViewController.java:138-170 | Only an `in` or `between` cell can fail: with a null reference (a payload that is not a string) or an index error (a `between` value whose split is empty). A `between` cell binds two texts, and any other cell at most one |
| Binding.BoundTextsFirstFailure | aero.minova.core.application.system.service/src/main/java/aero/minova/core/application/system/controller/SqlViewController.java:125-186 | The walk over the visited cells fails with "Could not parse input parameter with index:" and position i exactly when cell i is the first cell that cannot be bound |
| Binding.FillPreparedViewString | aero.minova.core.application.system.service/src/main/java/aero/minova/core/application/system/controller/SqlViewController.java:125-186 | The loop binds parameters 1, 2, 3, … without gap or repetition to the texts of the visited values in row-major order. A row longer than the column list fails with an index error. Otherwise the first value that cannot be read fails the call with "Could not parse input parameter with index:" and its position (SqlViewController.java:181-183) |
| Binding.AndMarkerIsExact | aero.minova.core.application.system.service/src/main/java/aero/minova/core/application/system/controller/SqlViewController.java:130-135 | The binder's exact test for the AND column and the builder's case-insensitive one agree |
| Binding.RuledCellAlignment | aero.minova.core.application.system.service/src/main/java/aero/minova/core/application/system/controller/SqlViewController.java:152-170 | For an `in` or `between` cell, the texts the binder supplies are exactly as many as the placeholders in the builder's term |
| Binding.RulelessCellAlignment | aero.minova.core.application.system.service/src/main/java/aero/minova/core/application/system/controller/SqlViewController.java:144-151 | A rule-less non-blank cell has one placeholder and binds one text, widened or not |
| Binding.BlankCellAlignment | aero.minova.core.application.system.service/src/main/java/aero/minova/core/application/system/controller/SqlViewController.java:171-176 | A blank cell binds nothing, and its term (none, `is null` or `is not null`) has no placeholder |
| Binding.CellAlignment | aero.minova.core.application.system.service/src/main/java/aero/minova/core/application/system/controller/SqlViewController.java:138-180 | For every bindable cell, the placeholders of its term equal the parameters its written-back value binds |
| Binding.PlaceholdersMatchBindings | aero.minova.core.application.system.service/src/main/java/aero/minova/core/application/system/controller/SqlViewController.java:125-186 | For a template that meets `TemplateReady`, the WHERE text has exactly as many `?` as the binder binds texts. `TemplateReady` means that no name or rule holds a `?`, and that every `in`/`between` value is a non-empty string that is already trimmed (for `between`, not commas only). The proviso is needed: the builder trims the value before splitting (SqlViewController.java:494) but the binder splits it untrimmed (SqlViewController.java:154) |
| Binding.UntrimmedInMismatch | aero.minova.core.application.system.service/src/main/java/aero/minova/core/application/system/controller/SqlViewController.java:152-158 | Outside that proviso the two disagree: an `in` value `"a, "` gets one placeholder in the WHERE term, but the binder supplies two texts, `a` and a blank |
| ViewStatement.OutputColumns | aero.minova.core.application.system.service/src/main/java/aero/minova/core/application/system/controller/SqlViewController.java:302-304 | The projected columns are exactly the requested ones not named like the AND marker |
| ViewStatement.Projection | aero.minova.core.application.system.service/src/main/java/aero/minova/core/application/system/controller/SqlViewController.java:302-313 | Without projected columns the list is `*`. When no requested column is itself named `*`, the list is `*` exactly when every requested column is the AND marker |
| ViewStatement.ProjectionRoundTrip | aero.minova.core.application.system.service/src/main/java/aero/minova/core/application/system/controller/SqlViewController.java:302-313 | Reading the projection back gives the projected column names in order. It is `*` exactly when no column is left |
| ViewStatement.BuildTokenList | aero.minova.core.application.system.service/src/main/java/aero/minova/core/application/system/controller/SqlViewController.java:592-599 | The append-then-delete-last-comma loop builds the comma-separated list of quoted, trimmed tokens |
| ViewStatement.TokenListRoundTrip | aero.minova.core.application.system.service/src/main/java/aero/minova/core/application/system/controller/SqlViewController.java:592-599 | Split at its commas, the IN list gives back every token quoted, in order |
| ViewStatement.RowLevelSecurity | aero.minova.core.application.system.service/src/main/java/aero/minova/core/application/system/controller/SqlViewController.java:571-601 | The row-level-security part is empty exactly when some grant has row-level security switched off |
| ViewStatement.RowLevelSecurityShape | aero.minova.core.application.system.service/src/main/java/aero/minova/core/application/system/controller/SqlViewController.java:579-601 | When on, the part continues an existing WHERE with `and (` and otherwise opens `where (`. It always admits rows whose token is null, and lists the caller's tokens exactly when there are any |
| ViewStatement.Assemble | aero.minova.core.application.system.service/src/main/java/aero/minova/core/application/system/controller/SqlViewController.java:315-327 | A blank view name is rejected with the null-name message, and a failing WHERE part fails the statement. Otherwise the statement starts with the opening and the name, and the binder sees the template as the WHERE builder left it |
| ViewStatement.PrepareViewString | aero.minova.core.application.system.service/src/main/java/aero/minova/core/application/system/controller/SqlViewController.java:290-328 | Corrected `prepareViewString`: the same failures as the source. Every statement starts with `select `, then `count(1)`, `top N` and the projection, or the projection alone, then the name |
| ViewStatement.SelectHeadOpens | aero.minova.core.application.system.service/src/main/java/aero/minova/core/application/system/controller/SqlViewController.java:296-314 | The corrected opening starts with `select ` for every maxRows and count |
| ViewStatement.NoSelectWithoutLimit | aero.minova.core.application.system.service/src/main/java/aero/minova/core/application/system/controller/SqlViewController.java:296-314 | As written, with count off and maxRows 0 the statement starts with the bare projection and the name, without `select` |
| ViewStatement.NoSelectExample | aero.minova.core.application.system.service/src/main/java/aero/minova/core/application/system/controller/SqlViewController.java:299-306 | As written, view `T` without columns or rows gives exactly `* from T` |
| ViewStatement.PrepareViewStringAsWritten | aero.minova.core.application.system.service/src/main/java/aero/minova/core/application/system/controller/SqlViewController.java:290-328 | As written: the same failures as the corrected statement, and the same statement when counting or with a positive maxRows. Otherwise a statement starts with the bare projection, `from` and the name |
| ViewStatement.PagingWithSeek | aero.minova.core.application.system.service/src/main/java/aero/minova/core/application/system/controller/SqlViewController.java:333-372 | A blank name is rejected. The statement projects over the subquery numbered by `KeyLong` and ends with the subquery's closing and the seek bounds |
| ViewStatement.SeekBounds | aero.minova.core.application.system.service/src/main/java/aero/minova/core/application/system/controller/SqlViewController.java:364-370 | The bounds are empty exactly when the page is below 1. Otherwise they start with `where RowNum > `, and with a positive page size they end with `order by RowNum` |
| ViewStatement.SeekBoundsUnlimited | aero.minova.core.application.system.service/src/main/java/aero/minova/core/application/system/controller/SqlViewController.java:364-370 | A page of 0 or below adds no bounds; page size 0 selects every row from the first |
| ViewStatement.SeekBoundsSelectPage | aero.minova.core.application.system.service/src/main/java/aero/minova/core/application/system/controller/SqlViewController.java:364-370 | A positive page size selects the rows numbered `(page-1)*maxRows + 1` through `page*maxRows`, a window of exactly maxRows rows. The printed bounds read back as those numbers |
| ViewStatement.WherePartAligned | aero.minova.core.application.system.service/src/main/java/aero/minova/core/application/system/controller/SqlViewController.java:316-322 | The WHERE part, built only for a template with columns and rows, has as many placeholders as texts are bound |
| ViewStatement.ViewStringAligned | aero.minova.core.application.system.service/src/main/java/aero/minova/core/application/system/controller/SqlViewController.java:290-328 | The whole view statement has exactly as many `?` as `fillPreparedViewString` binds texts, when no name or token holds a `?` of its own |
| ViewStatement.PagingWithSeekAligned | aero.minova.core.application.system.service/src/main/java/aero/minova/core/application/system/controller/SqlViewController.java:333-372 | The same agreement for the seek-paginated statement |
| ColumnSecurity.AccessFromMeaning | aero.minova.core.application.system.service/src/main/java/aero/minova/core/application/system/controller/SqlViewController.java:397-420 | The walk over the grants is unrestricted exactly when some grant for the view has no column entry. Otherwise it collects, without repetition, the names granted to any token |
| ColumnSecurity.ViewAccessMeaning | aero.minova.core.application.system.service/src/main/java/aero/minova/core/application/system/controller/SqlViewController.java:397-420 | The same, from an empty start: the granted list is exactly the columns granted to any of the caller's tokens for the view, each once |
| ColumnSecurity.KeptColumns | aero.minova.core.application.system.service/src/main/java/aero/minova/core/application/system/controller/SqlViewController.java:429-437 | The columns kept are exactly the requested columns whose name is granted |
| ColumnSecurity.DropValueAt | aero.minova.core.application.system.service/src/main/java/aero/minova/core/application/system/controller/SqlViewController.java:432-434 | Every row loses the value at the index and keeps the rest in order. It fails with an index error exactly when some row is too short |
| ColumnSecurity.RemoveUngranted | aero.minova.core.application.system.service/src/main/java/aero/minova/core/application/system/controller/SqlViewController.java:429-437 | The removal loop works column by column at the column's current position. It equals the declarative restriction to the granted columns and their values |
| ColumnSecurity.StringColumns | aero.minova.core.application.system.service/src/main/java/aero/minova/core/application/system/controller/SqlViewController.java:422-427 | A request without columns receives one text column per granted name, in order |
| ColumnSecurity.SecureColumns | aero.minova.core.application.system.service/src/main/java/aero/minova/core/application/system/controller/SqlViewController.java:387-445 | An unrestricted view comes back unchanged. A secured view keeps its name and meta data, and a restricted one keeps at least one column. A refusal is either "Insufficient Permission" for the view (SqlViewController.java:439-443) or an index error |
| ColumnSecurity.SecureColumnsRestricts | aero.minova.core.application.system.service/src/main/java/aero/minova/core/application/system/controller/SqlViewController.java:387-445 | An unrestricted view comes back unchanged. Otherwise every remaining column is granted, and the remaining columns are exactly the granted requested ones. Name and meta data are kept, and a refusal names the view |
| ColumnSecurity.SecureColumnsRefuses | aero.minova.core.application.system.service/src/main/java/aero/minova/core/application/system/controller/SqlViewController.java:429-443 | Refused exactly when nothing is left to show, or with an index error exactly when a row is too short to give up a removed column's value |
| ColumnSecurity.SecureColumnsIdempotent | aero.minova.core.application.system.service/src/main/java/aero/minova/core/application/system/controller/SqlViewController.java:387-445 | Securing an already secured view changes nothing |
| ColumnSecurity.SecureColumnsWellFormed | aero.minova.core.application.system.service/src/main/java/aero/minova/core/application/system/controller/SqlViewController.java:429-437 | A view whose rows hold one value per column keeps that shape |
| Paging.PageAndLimit | service/src/main/java/aero/minova/cas/service/ViewService.java:61-82 | Missing meta data, page or limit take 1 and 0. A page below 1 or a negative limit is rejected, the page first. Otherwise the given values are kept |
| Paging.WindowUnique | aero.minova.core.application.system.service/src/main/java/aero/minova/core/application/system/controller/SqlProcedureController.java:259-266 | No row position lies on two pages of the same positive limit |
| Paging.PagesTile | aero.minova.core.application.system.service/src/main/java/aero/minova/core/application/system/controller/SqlProcedureController.java:259-266 | Every position lies on exactly one page |
| Paging.WindowIsConsecutive | aero.minova.core.application.system.service/src/main/java/aero/minova/core/application/system/controller/SqlProcedureController.java:261 | A page holds exactly `limit` consecutive positions starting after the previous page |
| ViewService.PageSlice | service/src/main/java/aero/minova/cas/service/ViewService.java:102-111 | The slice holds `min(limit, rows left)` rows, the k-th being row `(page-1)*limit + k` |
| ViewService.SliceRows | service/src/main/java/aero/minova/cas/service/ViewService.java:102-111 | The slot loop that skips missing row pointers computes that slice |
| ViewService.SliceIsWindow | service/src/main/java/aero/minova/cas/service/ViewService.java:101-111 | The slice is exactly the rows whose 1-based position lies on the page |
| ViewService.PagesTileRows | service/src/main/java/aero/minova/cas/service/ViewService.java:104-109 | Reading pages 1 to m in order neither skips nor repeats a row: they are the first `m*limit` rows |
| ViewService.ExecuteView | service/src/main/java/aero/minova/cas/service/ViewService.java:55-122 | Every failure, including a column-security failure, reaches the caller wrapped in a `TableException` (ViewService.java:115-117). On success the page and limit are valid, and the total counts the fetched rows. The returned rows are at most the total and, with a limit, at most the limit |
| ViewService.ExecuteViewPages | service/src/main/java/aero/minova/cas/service/ViewService.java:96-113 | The rows returned are all fetched rows without a limit, otherwise those on the requested page. Page and limit are those requested |
| ViewService.ExecuteViewValidatesFirst | service/src/main/java/aero/minova/cas/service/ViewService.java:62-117 | An invalid page or limit fails before the statement runs: the answer does not depend on the database. It is the validation error wrapped in a `TableException`; a page below 1 gives `msg.PageError` |
| ViewService.ServicePagingWithSeek | service/src/main/java/aero/minova/cas/service/ViewService.java:151-192 | Corrected service statement: a blank name is rejected with `msg.ViewNullName`. The statement opens with the seek head and ends with the subquery's closing and the seek bounds |
| ViewService.ServiceMatchesController | service/src/main/java/aero/minova/cas/service/ViewService.java:151-192 | With the controller's WHERE and row-level-security builders as delegates, the corrected service statement is the controller's seek statement |
| ViewService.ServiceSeekDepth | service/src/main/java/aero/minova/cas/service/ViewService.java:151-192 | The corrected statement closes every parenthesis it opens: its depth is that of the parts placed into it |
| ViewService.ServiceSeekExtraParen | service/src/main/java/aero/minova/cas/service/ViewService.java:172-179 | As written, a non-blank WHERE part leaves the statement with one more `)` than the corrected one |
| ViewService.ServicePagingWithSeekAsWritten | service/src/main/java/aero/minova/cas/service/ViewService.java:151-192 | As written, the statement fails exactly for a blank view name, with `msg.ViewNullName` |
| ViewService.ServiceAsWrittenWithoutWhere | service/src/main/java/aero/minova/cas/service/ViewService.java:170-182 | Without a WHERE part, the statement as written is the corrected one |
| ViewService.ServiceSeekBalance | service/src/main/java/aero/minova/cas/service/ViewService.java:170-182 | With balanced parts, the corrected statement is balanced and the statement as written is not |
| ViewService.ServiceSeekUnbalancedExample | service/src/main/java/aero/minova/cas/service/ViewService.java:172-182 | For view `V` searched by `Name = ?`, the statement as written closes one parenthesis too many |
| IndexView.PrivilegeSearch | aero.minova.core.application.system.service/src/main/java/aero/minova/core/application/system/controller/SqlViewController.java:202-221 | The privilege search has the four privilege columns and one row per caller token: the privilege under that token |
| IndexView.SecurityCheckStatement | aero.minova.core.application.system.service/src/main/java/aero/minova/core/application/system/controller/SqlViewController.java:232-251 | The security-check statement fails exactly when `prepareViewString` with limit 1000, no count and row-level security off fails. The failure is rethrown wrapped in a runtime exception, so a blank name gives the wrapped null-name error |
| IndexView.SecurityCheckUnfiltered | aero.minova.core.application.system.service/src/main/java/aero/minova/core/application/system/controller/SqlViewController.java:232-241 | The security-check statement selects at most 1000 rows with no row-level-security part, whoever the caller is |
| IndexView.PrivilegeSearchAligned | aero.minova.core.application.system.service/src/main/java/aero/minova/core/application/system/controller/SqlViewController.java:197-244 | The privilege search's statement has as many placeholders as its parameters receive texts |
| IndexView.WherePartKeepsTable | aero.minova.core.application.system.service/src/main/java/aero/minova/core/application/system/controller/SqlViewController.java:517-520 | Without auto-like the WHERE builder leaves the template unchanged |
| IndexView.IndexView | aero.minova.core.application.system.service/src/main/java/aero/minova/core/application/system/controller/SqlViewController.java:45-114 | A caller without privilege rows is refused with the view's name. A planned request has a valid page and limit |
| IndexView.IndexViewRefusal | aero.minova.core.application.system.service/src/main/java/aero/minova/core/application/system/controller/SqlViewController.java:45-114 | The request is refused for lack of permission exactly when no privilege row exists. Any other failure is one reported in the answer |
| IndexView.IndexViewStatements | aero.minova.core.application.system.service/src/main/java/aero/minova/core/application/system/controller/SqlViewController.java:81-92 | The count statement is `select count(1) from <view>` over the secured view. The page statement is the seek statement bounded by the validated page and limit. Both bind the same texts |
| IndexView.IndexViewColumnsGranted | aero.minova.core.application.system.service/src/main/java/aero/minova/core/application/system/controller/SqlViewController.java:56-91 | The page statement projects the requested columns when unrestricted, otherwise only granted ones and at least one |
| TokenResolver.BaseTokens | aero.minova.core.application.system.service/src/main/java/aero/minova/core/application/system/controller/SqlProcedureController.java:526-544 | An unknown user acts under the user name. A user row whose token or memberships are null fails with a null reference |
| TokenResolver.GroupTokens | aero.minova.core.application.system.service/src/main/java/aero/minova/core/application/system/controller/SqlProcedureController.java:567-576 | The group tokens are exactly the trimmed `#`-pieces of the group rows. A group row without memberships fails |
| TokenResolver.NonEmpty | aero.minova.core.application.system.service/src/main/java/aero/minova/core/application/system/controller/SqlProcedureController.java:585-589 | Exactly the non-empty tokens are granted |
| TokenResolver.ResolveTokens | aero.minova.core.application.system.service/src/main/java/aero/minova/core/application/system/controller/SqlProcedureController.java:512-592 | The resolved tokens never include the empty string |
| TokenResolver.ResolveTokensOrder | aero.minova.core.application.system.service/src/main/java/aero/minova/core/application/system/controller/SqlProcedureController.java:527-549 | The user row's tokens and the directory's authorities lead the result, in their order |
| TokenResolver.ResolveTokensMembers | aero.minova.core.application.system.service/src/main/java/aero/minova/core/application/system/controller/SqlProcedureController.java:512-592 | A token is granted exactly when it is non-empty and comes from the user row, the authorities or a group of one of them |
| TokenResolver.ResolveTokensDistinct | aero.minova.core.application.system.service/src/main/java/aero/minova/core/application/system/controller/SqlProcedureController.java:578-582 | Group tokens are added only when absent, so duplicate-free leading tokens give a duplicate-free result |
| TokenResolver.ResolveTokensSingleLevel | aero.minova.core.application.system.service/src/main/java/aero/minova/core/application/system/controller/SqlProcedureController.java:551-567 | The group store is asked once, about the trimmed non-blank leading tokens only: groups of groups are not followed |
| TokenResolver.UnknownUser | aero.minova.core.application.system.service/src/main/java/aero/minova/core/application/system/controller/SqlProcedureController.java:541-549 | An unknown user's tokens start with the user name followed by the authorities |
| TokenResolver.KnownUserToken | aero.minova.core.application.system.service/src/main/java/aero/minova/core/application/system/controller/SqlProcedureController.java:529-540 | A known user's memberships come first. The user's own token (without `#`, trimmed) is appended exactly when no membership names it |
| RowSecurity.SecurityTokenColumn | aero.minova.core.application.system.service/src/main/java/aero/minova/core/application/system/controller/SqlProcedureController.java:449-458 | The token column index is 0 or a valid column index |
| RowSecurity.SecurityTokenColumnMeaning | aero.minova.core.application.system.service/src/main/java/aero/minova/core/application/system/controller/SqlProcedureController.java:449-458 | The index names the last `SecurityToken` column; without one it is 0, whatever column 0 is |
| RowSecurity.FindSecurityTokenColumn | aero.minova.core.application.system.service/src/main/java/aero/minova/core/application/system/controller/SqlProcedureController.java:449-458 | The front-to-back loop that overwrites the index at every match finds that column |
| RowSecurity.CheckRow | aero.minova.core.application.system.service/src/main/java/aero/minova/core/application/system/controller/SqlProcedureController.java:468-479 | Without tokens every row passes. A missing position fails with an index error and a null cell with a null reference. A row is rejected exactly when its cell is a string whose lower-case form is not a token |
| RowSecurity.CheckRowIgnoresCase | aero.minova.core.application.system.service/src/main/java/aero/minova/core/application/system/controller/SqlProcedureController.java:470-471 | A token cell and its lower-case form get the same verdict |
| RowSecurity.CheckRowReadsTokenCell | aero.minova.core.application.system.service/src/main/java/aero/minova/core/application/system/controller/SqlProcedureController.java:468-479 | Rows that agree on the token cell get the same verdict |
| ProcedureCall.ParameterList | aero.minova.core.application.system.service/src/main/java/aero/minova/core/application/system/controller/SqlProcedureController.java:502-504 | The list for n parameters has 2n-1 characters, and none for n = 0 |
| ProcedureCall.ParameterListIsJoin | aero.minova.core.application.system.service/src/main/java/aero/minova/core/application/system/controller/SqlProcedureController.java:502-504 | The list is n copies of `?` joined with `,` |
| ProcedureCall.ParameterListSplits | aero.minova.core.application.system.service/src/main/java/aero/minova/core/application/system/controller/SqlProcedureController.java:502-504 | Split at commas, the list gives back n single placeholders |
| ProcedureCall.ParameterListCount | aero.minova.core.application.system.service/src/main/java/aero/minova/core/application/system/controller/SqlProcedureController.java:502-504 | The list holds exactly n `?` |
| ProcedureCall.PrepareProcedureString | aero.minova.core.application.system.service/src/main/java/aero/minova/core/application/system/controller/SqlProcedureController.java:489-507 | A blank name is rejected with `msg.ProcedureNullName`. Otherwise the call is `{call Name(…)}`, or `{? = call Name(…)}` when a return is required. The parentheses hold one `?` per column, joined with `,` |
| ProcedureCall.CallPlaceholders | aero.minova.core.application.system.service/src/main/java/aero/minova/core/application/system/controller/SqlProcedureController.java:493-505 | The call has one `?` per column plus one for the return code when required |
| ProcedureCall.CallShape | aero.minova.core.application.system.service/src/main/java/aero/minova/core/application/system/controller/SqlProcedureController.java:497-505 | The call is enclosed in `{` … `)}`. A `?` follows the brace exactly when a return is required |
| ProcedureRows.JdbcTypeRoundTrip | aero.minova.core.application.system.service/src/main/java/aero/minova/core/application/system/controller/SqlProcedureController.java:378-393 | Every data type is bound with a JDBC type the result reader accepts. It reads back as itself except LONG (read as DOUBLE) and ZONED (read as INSTANT) |
| ProcedureRows.ResultColumns | aero.minova.core.application.system.service/src/main/java/aero/minova/core/application/system/controller/SqlProcedureController.java:227-252 | One column per JDBC column, in order, typed by the type table. An unsupported type fails the whole read with `msg.ParseResultSetError` |
| ProcedureRows.WindowItemsMembers | aero.minova.core.application.system.service/src/main/java/aero/minova/core/application/system/controller/SqlProcedureController.java:259-266 | A row is on the page exactly when one of its positions satisfies `(page-1)*limit < pos <= page*limit` |
| ProcedureRows.Filtered | aero.minova.core.application.system.service/src/main/java/aero/minova/core/application/system/controller/SqlProcedureController.java:277-280 | The filter succeeds exactly when every row's token check succeeds. The kept rows are rows the check accepts, and no more than there are rows; `FilteredSubsequence` gives their order and repetitions |
| ProcedureRows.FilteredWithoutTokens | aero.minova.core.application.system.service/src/main/java/aero/minova/core/application/system/controller/SqlProcedureController.java:274-280 | Without tokens every row is kept |
| ProcedureRows.FilteredSubsequence | aero.minova.core.application.system.service/src/main/java/aero/minova/core/application/system/controller/SqlProcedureController.java:277-280 | The kept rows are exactly the accepted rows in result-set order, each as often as it occurs |
| ProcedureRows.SelectedPositions | aero.minova.core.application.system.service/src/main/java/aero/minova/core/application/system/controller/SqlProcedureController.java:257-282 | The selected positions are increasing and within the result set. A position is selected exactly when it is on the page (any position without a limit) and its row passes the token check |
| ProcedureRows.StreamRows | aero.minova.core.application.system.service/src/main/java/aero/minova/core/application/system/controller/SqlProcedureController.java:257-282 | Corrected loop: the returned rows are no more than the result set's rows, and each is a result row that passes the token check |
| ProcedureRows.StreamRowsSubsequence | aero.minova.core.application.system.service/src/main/java/aero/minova/core/application/system/controller/SqlProcedureController.java:257-282 | The j-th returned row is the row at the j-th selected position. The result is the selected rows in result-set order, each as often as it occurs |
| ProcedureRows.StreamRowsOk | aero.minova.core.application.system.service/src/main/java/aero/minova/core/application/system/controller/SqlProcedureController.java:257-282 | The loop fails exactly when a row on the page (any row without a limit) fails its token check |
| ProcedureRows.StreamRowsMembers | aero.minova.core.application.system.service/src/main/java/aero/minova/core/application/system/controller/SqlProcedureController.java:257-282 | Corrected loop: a row is returned exactly when it is on the requested page (any row without a limit) and passes the token check. Order and repetitions are stated by `StreamRowsSubsequence` |
| ProcedureRows.AsWrittenWithoutLimit | aero.minova.core.application.system.service/src/main/java/aero/minova/core/application/system/controller/SqlProcedureController.java:267-272 | Without a limit, the loop as written and the corrected one agree |
| ProcedureRows.StreamRowsAsWritten | aero.minova.core.application.system.service/src/main/java/aero/minova/core/application/system/controller/SqlProcedureController.java:257-281 | As written, the loop yields at most one entry per result row. With tokens, no entry is `null`: a null candidate never passes |
| ProcedureRows.AsWrittenPadsWithNulls | aero.minova.core.application.system.service/src/main/java/aero/minova/core/application/system/controller/SqlProcedureController.java:257-281 | As written, with a limit and no tokens, every result row yields an entry: the row on the page, `null` off it |
| ProcedureRows.AsWrittenFailsOffPage | aero.minova.core.application.system.service/src/main/java/aero/minova/core/application/system/controller/SqlProcedureController.java:257-281 | As written, with a limit and tokens, any row off the page makes the call fail |
| ProcedureRows.OffPageExample | aero.minova.core.application.system.service/src/main/java/aero/minova/core/application/system/controller/SqlProcedureController.java:257-281 | Two rows, page 1 of size 1: as written `[a, null]` without tokens and a null reference with tokens; corrected `[a]` |
| ProcedureExecution.CallBindings | aero.minova.core.application.system.service/src/main/java/aero/minova/core/application/system/controller/SqlProcedureController.java:370-444 | Column k is bound at parameter k + 2, with a typed null for a null value and an out registration for an output column. A row shorter than the column list fails with `msg.ParseError %<first missing index>` |
| ProcedureExecution.BindingsFillCall | aero.minova.core.application.system.service/src/main/java/aero/minova/core/application/system/controller/SqlProcedureController.java:370-444 | The bindings fill the call exactly: its `?` count is the bindings plus the return slot, positions run 2, 3, …. A null is typed exactly for null values, and registered exactly for output columns |
| ProcedureExecution.OutputValues | aero.minova.core.application.system.service/src/main/java/aero/minova/core/application/system/controller/SqlProcedureController.java:293-308 | The output row has one value per column. An output column takes parameter k + 2 after the call, and another column takes input row 0's value |
| ProcedureExecution.OutputRow | aero.minova.core.application.system.service/src/main/java/aero/minova/core/application/system/controller/SqlProcedureController.java:285-320 | A call yields an output row exactly when some column is an output parameter, with one value per column |
| ProcedureExecution.OutputRowRedaction | aero.minova.core.application.system.service/src/main/java/aero/minova/core/application/system/controller/SqlProcedureController.java:309-319 | The output row is all nulls exactly when the token check rejects it, and unchanged when it passes. Without tokens nothing is redacted |
| ProcedureExecution.OutputEchoesFirstRow | aero.minova.core.application.system.service/src/main/java/aero/minova/core/application/system/controller/SqlProcedureController.java:305-307 | A non-output column echoes input row 0, whichever row was called |
| ProcedureExecution.AggregateCodeMeaning | aero.minova.core.application.system.service/src/main/java/aero/minova/core/application/system/controller/SqlProcedureController.java:343-352 | The aggregate return code is 1 exactly when two codes differ, and 0 otherwise, even when every call returned the same non-zero code |
| ProcedureExecution.AggregateCodeExamples | aero.minova.core.application.system.service/src/main/java/aero/minova/core/application/system/controller/SqlProcedureController.java:343-352 | Codes 5, 5 aggregate to 0; codes 0, 5 aggregate to 1 |
| ProcedureExecution.ReadResultSet | aero.minova.core.application.system.service/src/main/java/aero/minova/core/application/system/controller/SqlProcedureController.java:221-283 | A result set gets its typed columns, and its rows cut to the page and filtered on the token column of those columns. It fails exactly when typing or filtering fails (corrected result-row loop, see Findings) |
| ProcedureExecution.CalculateRejects | aero.minova.core.application.system.service/src/main/java/aero/minova/core/application/system/controller/SqlProcedureController.java:182-207 | A bad page or limit is rejected before anything runs (`msg.PageError` for the page), then a blank procedure name |
| ProcedureExecution.CalculateProcedureResult | aero.minova.core.application.system.service/src/main/java/aero/minova/core/application/system/controller/SqlProcedureController.java:182-207 | A result implies a valid page and limit and a non-blank name. An invalid page or limit is the result's error, before anything runs (corrected result-row loop, see Findings) |
| ProcedureExecution.CalculateReturnCodes | aero.minova.core.application.system.service/src/main/java/aero/minova/core/application/system/controller/SqlProcedureController.java:343-352 | The result lists every non-null return code in call order. Its code is 1 exactly when two of them differ |
| ProcedureExecution.CalculateOutputRows | aero.minova.core.application.system.service/src/main/java/aero/minova/core/application/system/controller/SqlProcedureController.java:285-329 | With an output column there is one output row per input row, each one value per column. Otherwise there are no output parameters |
| ProcedureExecution.CalculateResultRows | aero.minova.core.application.system.service/src/main/java/aero/minova/core/application/system/controller/SqlProcedureController.java:332-341 | There is a result set exactly when some call produced one. Its rows are every call's paged and filtered rows, in call order (corrected result-row loop, see Findings) |
| Authorization.Register | aero.minova.core.application.system.service/src/main/java/aero/minova/core/application/system/controller/SqlProcedureController.java:68-80 | Registering a taken name fails with the name. Otherwise exactly that name is added and every other entry is kept |
| Authorization.RegisterCommutes | aero.minova.core.application.system.service/src/main/java/aero/minova/core/application/system/controller/SqlProcedureController.java:68-80 | Registrations of distinct names give the same registry in either order |
| Authorization.RegisterOnce | aero.minova.core.application.system.service/src/main/java/aero/minova/core/application/system/controller/SqlProcedureController.java:68-80 | A second registration of a name fails |
| Authorization.Authorize | aero.minova.core.application.system.service/src/main/java/aero/minova/core/application/system/controller/SqlProcedureController.java:114-141 | Every refusal is `msg.PrivilegeError` for the procedure's name |
| Authorization.ProcedureRoute | aero.minova.core.application.system.service/src/main/java/aero/minova/core/application/system/controller/SqlProcedureController.java:118-141 | The stored procedure runs exactly when the privilege store exists, privilege rows were found and no extension claims the name. It runs under exactly those rows |
| Authorization.ExtensionRoute | aero.minova.core.application.system.service/src/main/java/aero/minova/core/application/system/controller/SqlProcedureController.java:118-138 | An extension runs exactly when it is registered and the caller passes the gate that applies: privilege rows with the store, its bootstrap check without |
| Authorization.BootstrapOnlyForExtensions | aero.minova.core.application.system.service/src/main/java/aero/minova/core/application/system/controller/SqlProcedureController.java:123-141 | Without the store the privilege rows are ignored, and only an accepted extension gets through |
| Authorization.ExecuteProcedure | aero.minova.core.application.system.service/src/main/java/aero/minova/core/application/system/controller/SqlProcedureController.java:114-148 | A refused call fails with the authorisation error, before any extension or procedure runs |
| Authorization.ExecuteProcedureResult | aero.minova.core.application.system.service/src/main/java/aero/minova/core/application/system/controller/SqlProcedureController.java:139-143 | A procedure answer implies the store, privilege rows and no extension. It is the procedure result computed under those rows' tokens |

## Left out

- JDBC itself: connections, statement execution, `commit` and `rollback`, and `setUserContextFor` (SqlProcedureController.java:156-160). The database's answers are parameters.
- Logging, the request logging of `executeProcedure`, and the error trace `getIndexView` builds (SqlViewController.java:97-109). A failure `getIndexView` catches is modelled only as "reported".
- `convertSqlResultToTable` and `convertSqlResultToRow`: result rows arrive converted. SqlUtils is not part of this model.
- `fillMetaData` and the `totalResults` of result sets: the meta data of returned tables is not modelled. This includes the merge of a previous total at SqlProcedureController.java:336-339.
- The delegates that are not part of this model come in as parameters with unconstrained behaviour:
  - `SecurityService` and `extractUserTokens`;
  - the one-argument `getPrivilegePermissions` of the procedure controller's service;
  - the MSSQL and jOOQ view services behind `ViewService` (its `prepareWhereClause`, `prepareViewString`, `unsecurelyGetIndexView` and `init`).
- `SecurityContextHolder`: the caller's tokens are a parameter. `rowLevelSecurity` collects the roles of the grant rows but never uses them (SqlViewController.java:569-577), so the model does not collect them.
- `loadPrivileges` of the view controller (SqlViewController.java:607-687) is the same code as the procedure controller's and is modelled once, as `TokenResolver.ResolveTokens`.
- `ProcedureRows.ResultColumns`: the `msg.UnsupportedResultSetError` message is replaced by the catch block's `msg.ParseResultSetError`, as in the source. Only the catch block's error is modelled.
- `ProcedureExecution.CallBindings`: it does not model the typed getters (`getBooleanValue`, `getIntegerValue`, …) failing on a payload that does not match the column's type. It also leaves out the `msg.UnknownType` branch. That branch cannot be reached with the eight data types the model has.
- `ProcedureExecution.OutputValues`: output parameter values come from a parameter. The conversion and parse errors of `parseSqlParameter` are not modelled.
- `Authorization.ExecuteProcedure`: wrapping a failure into a `ProcedureException` is not modelled; the error keeps its kind. The exceptions of `isTablePresent` are not modelled either; the store's presence is a boolean parameter.
- `ViewStatement.SeekBounds`: it computes `(page-1)*maxRows` and `page*maxRows` with unbounded integers. The same holds for the window test `Paging.InWindow` and for the slice start `limit * (page - 1)` of `ViewService.PageSlice` and `ViewService.SliceRows` (ViewService.java:104). Java's `int` arithmetic would wrap for products beyond 2^31-1; in the service a wrapped negative row pointer would fail in `get()` and reach the caller as a `TableException`, where the model returns no rows.
- The `Value` and `Column` classes are not part of this model:
  - The AND marker's name is taken as `&`.
  - A column built with two arguments is taken as an INPUT column.
  - Floating-point, decimal and time payloads are abstract values with a text rendering.
- `Table` names cannot be `null` in the model; the blank-name branches cover the `null` checks.
- String payloads and privilege rows cannot be `null` in the model. The source dereferences them without a check when it reads a privilege row's view name (SqlViewController.java:398), its row-level-security flag (SqlViewController.java:572) and its token (SqlViewController.java:574); those null-pointer failures are not modelled.
- RowSecurity.CheckRow: lower-casing is ASCII-only (`Text.ToLower`), whereas Java's `toLowerCase` also maps non-ASCII letters. A token cell with a non-ASCII capital gets a different verdict than in the source.
- RowSecurity.CheckRowIgnoresCase: the case-insensitivity it states covers ASCII letters only, for the same reason.
- IndexView.SecurityCheckStatement: only the failure of `prepareViewString` is wrapped in the model. `getTableForSecurityCheck` also wraps failures of `fillPreparedViewString` and of the query's execution (SqlViewController.java:244-250); the binder's failure is not composed into this member, and execution is not modelled.
- ProcedureExecution.CalculateProcedureResult: it builds the call with a return slot, as `calculateSqlProcedureResult` does when a return code is required. `RETURN_CODE_IS_ERROR_IF_NOT_0` and `ExecuteStrategy` are not part of this model, so the call without a return slot is covered only by `ProcedureCall.PrepareProcedureString`.

## Findings

| source | as written | input that shows it | evidently intended | confidence | as-written member | corrected member |
|---|---|---|---|---|---|---|
| aero.minova.core.application.system.service/src/main/java/aero/minova/core/application/system/controller/SqlViewController.java:296-314 | `select` is appended only together with `top N`, so with count off and maxRows 0 or below the statement starts with the bare projection | view `T` without columns and rows, maxRows 0, count off: `* from T` | `select * from T`: the documentation calls maxRows 0 "unlimited", and `pagingWithSeek` always writes `select ` | high for the text; not executed | ViewStatement.NoSelectWithoutLimit, ViewStatement.NoSelectExample | ViewStatement.PrepareViewString, ViewStatement.SelectHeadOpens |
| service/src/main/java/aero/minova/cas/service/ViewService.java:172-179 | after a non-blank WHERE part a `)` is appended that nothing in the statement opened | view `V` with column `Name` and WHERE part `\r\nwhere (Name = ?)`, no row-level security: the statement closes one parenthesis more than it opens | no extra `)`, as in the controller's `pagingWithSeek` (SqlViewController.java:352-362) | medium: the WHERE delegate is not part of this model and is assumed balanced like the controller's; not executed | ViewService.ServicePagingWithSeekAsWritten, ViewService.ServiceSeekExtraParen, ViewService.ServiceSeekUnbalancedExample | ViewService.ServicePagingWithSeek, ViewService.ServiceSeekBalance, ViewService.ServiceMatchesController |
| aero.minova.core.application.system.service/src/main/java/aero/minova/core/application/system/controller/SqlProcedureController.java:257-281 | with a positive limit, a result row off the page leaves `rowToBeAdded` null and still reaches the token check | two result rows, page 1, limit 1: without tokens the result is `[a, null]`, with tokens the call fails with a null reference | off-page rows are skipped: `[a]` | high; not executed | ProcedureRows.StreamRowsAsWritten, ProcedureRows.AsWrittenPadsWithNulls, ProcedureRows.AsWrittenFailsOffPage, ProcedureRows.OffPageExample | ProcedureRows.StreamRows, ProcedureRows.StreamRowsMembers, ProcedureRows.StreamRowsSubsequence, ProcedureExecution.ReadResultSet |
