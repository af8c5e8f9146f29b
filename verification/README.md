# Verified model of the full-stack engine

A Dafny model of the parts of the engine where correctness is hardest to see, with proofs. `dafny verify dfyconfig.toml`
checks everything. Each module stands in the file of the same name.

**The condition and template compiler of `fse-ssr`.** `Tera` gives Tera's values, expressions and flat condition grammar,
`TeraBlocks` its block grammar and rendering. `SsrConditions` is the condition tree with negation, flattening and
rendering; `SsrTemplates` the source expressions, the markers the helpers build, and the `Builder` with its loop counter.
`SsrSemantics` evaluates an expression directly with Tera's truth. `SsrConditionProofs` and `SsrTemplateProofs` connect the
two; `SsrErrors` says exactly which pages build, `SsrCapture` which reads a loop can capture. `SsrJavaScript` is what the
same expression means in JavaScript, `SsrAgreement` says exactly on which values the two agree, and `SsrPages` what follows
for pages.

**Sessions and accounts.** `Roles` and `Accounts` describe the role table and every handler as one step on the users
table, the issued session tokens, the single-use tokens and the cutoff cache; `AccountServer` runs the handlers statement
by statement and takes exactly those steps; `AccountInvariant` is what every step keeps, `AccountProofs` what follows for
runs of whole handlers, `AccountColumns` what a step does to each column and when a token is signed, `AdminRights` who can
make or remove an admin. Four modules interleave the statements of any number of threads: `SessionCache` the cache
read-through and the revocation, `LoginRaces` sign-ins, role changes and revocations, `ConfirmRaces` address changes,
`AdminRaces` role changes and deletions. `iat` and `exp` are the claims of sections 4.1.6 and 4.1.4 of RFC 7519.

**Filters and generated data access.** `SqlConditions` is three-valued SQL with positional binds; `Filters` the filter
compiler and its meaning, `FilterBuilder` the compiler as it pushes onto a mutable filter. `Resources` interprets a model
definition over tables, `ResourceStore` runs the list loop and the guarded writes, `ResourceProofs` says who sees which row
and relates the read paths, `ListRules` says what a list shows, and `ModelCheck` is the boot check that keeps nesting one
level deep. `TextOrder` sorts texts for it and for `CronLogs`.

**Themes.** `Ancestry` holds the walks along parent links and the pigeonhole argument; `Themes` resolves the active theme
and its chain, `ThemeTemplates` collects, repairs and loads templates, `BuildOrder` puts parents first.

**The rest.** `Locales` is the deep merge, the layers and the per-key fallback; `ScriptNonces` stamps script tags;
`NumberFormats` rounds, groups and reads back; `PruneGate` is the compare-and-swap gate under any interleaving; `CronLogs`
is log rotation over histories of runs. `Prelude` and `Decimals` are shared.

## Where the source does not do what is said of it

- A revocation is documented as immediate (`framework/src/auth.rs:263-265`). It is not when a read-through that has already
  read the old cutoff inserts it after the invalidate: `SessionCache.StaleWithNothingInFlight`. `CacheCurrentExactly` says
  when an entry is current, `RevocationImmediateExactly` when every later decision is made on the row.
- A sign-in reads the role, checks the password and only then signs (`framework/src/auth_module.rs:264-298`); a role change
  reads the clock for its cutoff and only then runs its UPDATE (`framework/src/auth_module.rs:1118-1124`). In either order a
  token with the old role can be admitted: `LoginRaces.OldRoleAdmitted` and `LateWriteAdmitted`, exactly when `FreshExactly`
  says. A late UPDATE also brings a revoked token back (`RevokedTokenReturns`, `DeadExactly`).
- An address change is a SELECT and a separate UPDATE (`framework/src/auth_module.rs:861-884`), so a token can take effect
  twice (`ConfirmRaces.UsedTwice`, `OnceExactly`), after it was reissued and after it ran out (`RetiredTakesEffect`,
  `LateEffect`, `SoundExactly`).
- `user_update` and `user_delete` check the target's role and then write (`framework/src/auth_module.rs:1108-1153`), so
  a caller who is no admin can demote an admin made in between, and a demoted admin still promotes:
  `AdminRaces.NewAdminDemoted` and `DemotedAdminPromotes`, exactly when `AlwaysProperExactly` says.
- Pages are written as JavaScript and decided by Tera. On the page an empty list or object counts as false
  (`SsrPages.EmptyListHides`), a failed `&&` over 0 shows nothing and not 0 (`ZeroVanishes`), a comparison with an absent
  value or an order of two texts fails the render (`AbsentOperandFails`, `TextOrderFails`), and `false` is printed
  (`ShownReadExactly`). Tera has one equality for `===` and `==`, and coerces nothing (`LooseTextDiffers`); a comparison with
  `null` is answered while building (`SsrAgreement.NullComparisonExactly`, `NullReadExactly`). The exact conditions on the
  values read are `SsrAgreement.TestExactly`, `ComparePathsExactly`, `CompareLitExactly`, `FailedExactly` and
  `ShowExactly`; `SsrPages.PagePreserved` carries them to whole pages.
- A count used as a key, `t[rows.length]`, is emitted as `t[rows | length]`, a filter inside a subscript
  (`SsrAgreement.CountedKeyEmitted`), exactly when `CountedKeyExactly` says.
- `from_request` says a token issued "at or after" the cutoff is accepted (`framework/src/auth.rs:341-345`); the code
  accepts only later ones, and so does the model.
- A map callback's index is `loop.index0` at every depth, so inside a further loop it is that loop's index
  (`SsrCapture.IndexCapturedExactly`); a page key named `loop` or `it0` is captured the same way
  (`PageKeyCapturedExactly`).
- `load_into` promises that everything but the broken templates still loads (`framework/src/themes.rs:473-475`). The repair
  drops orphans only, so the repaired batch is still refused exactly when what it keeps has a circle of `extends`
  (`ThemeTemplates.LoadInto`); `CircleIsRefused` shows it at three sources.
- Every theme's own copy should be there as `@theme/name` (`framework/src/themes.rs:454-456`). A template whose own name is
  literally that key can take its place (`OwnCopyCanBeTaken`), exactly when `OwnCopyServed` and `OwnCopyExactly` say.
- Rounding treats numbers within 2^-52 below a tie as ties, so it can err by slightly more than half a unit
  (`NumberFormats.HalfUnitExactly`): the double just below one half prints as 1 (`BelowHalfRoundsUp`).
- A job's rotation also takes logs of a job named like it plus `_` and a digit (`CronLogs.TakenExactly`), so a run of
  `report` deletes the log of `report_2` (`ReportDeletesReport2`).

## What is assumed

- The clock does not go back; random tokens are fresh; user ids are not reused (`fse-orm/schema/src/sql.rs:16-22`); e-mail
  addresses are unique in the table; signatures are valid exactly on issued tokens.
- `Accounts`, `AccountServer`, `AccountInvariant`, `AccountProofs` and `AdminRights` run each handler as a whole: its
  checks, its clock readings, its writes and the signing of its token happen together. `SessionCache`, `LoginRaces`,
  `ConfirmRaces` and `AdminRaces` assume that a single statement is atomic, and not that it runs when its values were
  bound. In `AdminRaces` a caller is accepted with the role then stored, and the bootstrap, which runs before the server
  does (`framework/src/auth_module.rs:74`), is one step.
- The role table has a role without access that is not an admin role; `AdminGained` also needs the default role `user`
  not to be one.
- Numbers are totally ordered, so that inverting a comparison operator negates it.
- Astro shows `false`, `null`, `undefined` and the empty text as nothing, and 0 as 0; Tera shows `null` and the empty text
  as nothing. In JavaScript, how texts, lists and objects are ordered, which number a text reads as, how lists, objects and
  unusual computed keys read as text, and whether two paths lead to the same object are arbitrary.
- Rows that tie in the order of a list come in primary-key order; SQLite promises no order of ties.
- Tera accepts a batch of templates exactly when each parses, no parent is missing and no `extends` goes in a circle. Its
  expressions, conditions and blocks behave as `framework/src/lib.rs:2241-2300` pins them; that a `for` over anything but a
  list fails the render is assumed beyond that.
- Hooks, form-field parsers and `decorate` are arbitrary functions; `PrivateColumnsStayPrivate` needs `public_scope`,
  `decorate` and the default order column not to read private columns.
- Amounts are exact decimals; a job's times are well formed and non-decreasing, and deletions succeed.

## Model

| member | source | states |
|---|---|---|
| SsrConditionProofs.NegateKeepsLeaves | fse-ssr/src/runtime.ts:147-160 | Negating keeps `not` on truthiness tests only, and negating twice gives the tree back. |
| SsrConditionProofs.NegateMeaning | fse-ssr/src/runtime.ts:138-160 | De Morgan with inverted comparison operators flips the truth value in every context, and fails only where the condition fails. |
| SsrConditionProofs.FlattenMeaning | fse-ssr/src/runtime.ts:162-164 | Splicing same-kind junctions in place keeps the truth value, short-circuit order included. |
| SsrConditionProofs.FlattenKeepsEvery | fse-ssr/src/runtime.ts:162-164 | Whatever holds of all nested parts of a junction holds of the flattened ones, and of no others. |
| SsrConditionProofs.ReadBack | framework/src/lib.rs:2241-2275 | A flat condition text read with Tera's precedence (`not`, then `and`, then `or`, no grouping) gives back exactly the disjunction that was printed. |
| SsrConditionProofs.RenderCondSucceeds | fse-ssr/src/runtime.ts:171-192 | Rendering succeeds exactly when no `or` is left below an `and`; the only error is the missing grouping. |
| SsrConditionProofs.RenderCondMeaning | fse-ssr/src/runtime.ts:166-192 | The rendered text, read back with Tera's precedence, has the condition tree's truth value in every context. |
| SsrConditionProofs.NegationAboveJunctionIsWrong | fse-ssr/src/runtime.ts:176-177 | Without the invariant rendering is wrong: `!(a && b) && c` with the `not` left above the junction holds where the condition does not. |
| TeraBlocks.RunConcat | framework/src/lib.rs:2241-2275 | Rendering two complete block texts one after the other is rendering one and then the other. |
| TeraBlocks.RunIf | framework/src/lib.rs:2241-2275 | An if-else block around complete texts is complete and renders the branch its condition picks; a failing condition fails the render. |
| TeraBlocks.RunIfOnly | framework/src/lib.rs:2241-2275 | The same for a block without else, which renders nothing when its condition fails to hold. |
| TeraBlocks.RunFor | framework/src/lib.rs:2241-2275 | A for block renders its body once per item in order, and fails on anything but a list. |
| Decimals.NumeralInjective | fse-ssr/src/runtime.ts:262-262 | Different depth counters print as different numerals. |
| SsrTemplateProofs.LoopNamesDiffer | fse-ssr/src/runtime.ts:262-263 | Loop variables of different depths have different names, none of them `loop`. |
| SsrTemplates.Builder.Build | fse-ssr/src/runtime.ts:290-336 | Evaluating an expression gives what the compilation function says at the current depth, and `loopDepth` is back where it was, also when the build fails. |
| SsrTemplates.Builder.BuildLogic | fse-ssr/src/runtime.ts:440-452 | The lazy logic helper: a plain left side decides at once, a marker keeps both sides; the counter is restored. |
| SsrTemplates.Builder.LoopBlock | fse-ssr/src/runtime.ts:258-274 | A loop takes its name from the counter, builds its body one deeper, and restores the counter whether or not the body fails. |
| SsrTemplateProofs.CondNodeShaped | fse-ssr/src/runtime.ts:121-136 | Every condition tree the helpers build has negation at its leaves. |
| SsrTemplateProofs.ChunkBalanced | fse-ssr/src/runtime.ts:290-336 | Every rendered chunk is a complete Tera text: each opened block is closed inside it. |
| SsrTemplateProofs.CompileShaped | fse-ssr/src/runtime.ts:387-479 | Markers carry the invariant, and an expression is a marker exactly when its truth needs server data; else its truth is the one JavaScript gives. |
| SsrTemplateProofs.EnterLoop | fse-ssr/src/runtime.ts:258-274 | Entering a loop keeps the render context in agreement with the data on every name that may still be read. |
| SsrTemplateProofs.PathAgrees | fse-ssr/src/runtime.ts:208-252 | A path expression reads on the server what the property access reads directly. |
| SsrTemplateProofs.TruthAgrees | fse-ssr/src/runtime.ts:121-136 | The condition tree of an expression, De Morgan and flattening included, decides in every context as evaluating the expression does, with Tera deciding each single test. |
| SsrTemplateProofs.ConditionAgrees | fse-ssr/src/runtime.ts:195-197 | The text inside an if block decides as the source condition does, with Tera deciding each single test. |
| SsrTemplateProofs.ContentAgrees | fse-ssr/src/runtime.ts:286-336 | For every nesting of text, values, and, or, ternaries and map loops that compiles, rendering the emitted text gives what evaluating the source gives, with Tera deciding each single test. |
| SsrTemplateProofs.PageRendered | fse-ssr/src/runtime.ts:286-336 | A whole page that compiles and captures nothing renders, for every context, what its source comes to under Tera's truth. |
| SsrCapture.ItemNeverCaptured | fse-ssr/src/runtime.ts:262-270 | At any depth an enclosing loop's item variable still reads that loop's own item. |
| SsrCapture.IndexCapturedExactly | fse-ssr/src/runtime.ts:266-269 | `loop.index0` handed to a callback reads its own loop's index in every run exactly when it is used with no further loop in between. |
| SsrCapture.PageKeyCapturedExactly | fse-ssr/src/runtime.ts:258-274 | A page key reads the page's value inside loops exactly when no enclosing loop binds that name (`loop`, `it0`, ...). |
| SsrCapture.PlainIsTransparent | fse-ssr/src/runtime.ts:258-274 | A rule on the source alone that suffices: no key named like a loop variable, indices only in their own body, no count as a key or a looped list. |
| SsrCapture.PlainPageRendered | fse-ssr/src/runtime.ts:286-336 | So does every page that follows the rule and compiles. |
| SsrErrors.NamesExactly | fse-ssr/src/runtime.ts:203-252 | A name can be read from server data exactly when it is an identifier or a number and none the proxies answer themselves. |
| SsrErrors.LiteralExactly | fse-ssr/src/runtime.ts:94-109 | A literal can be an operand exactly when it is not null and, being a text, holds no quote, backslash or line break. |
| SsrErrors.PathExactly | fse-ssr/src/runtime.ts:208-252 | A read compiles exactly when its names are usable, its parameters in scope, and nothing but a count is read from a filtered expression; and then it is filtered exactly when it counts. |
| SsrErrors.CompilesExactly | fse-ssr/src/runtime.ts:121-197 | An expression compiles, decides a condition, is a value and can be printed exactly when the rules on the source say so, grouping of `or` below `and` included. |
| SsrErrors.PageCompilesExactly | fse-ssr/src/runtime.ts:286-336 | A page builds exactly when its expressions compile and it can be printed. |
| SsrAgreement.MemberExactly | fse-ssr/src/runtime.ts:208-252 | A property read of a value gives in both languages the same, or nothing, exactly when it is no index with leading zeros and no character of a text. |
| SsrAgreement.CountExactly | fse-ssr/src/runtime.ts:232-232 | A count agrees exactly when it is not of an object, unless that has a property `length` that counts its properties. |
| SsrAgreement.ComputedExactly | fse-ssr/src/runtime.ts:208-252 | A computed key that is a text or a natural number agrees exactly as that property read, any other exactly when it names nothing in JavaScript. |
| SsrAgreement.OrdinaryRead | fse-ssr/src/runtime.ts:208-252 | A read each of whose steps agrees gives JavaScript's value, and what the server lacks is `undefined` or throws in JavaScript. |
| SsrAgreement.TruthinessExactly | fse-ssr/src/runtime.ts:121-136 | A value decides alike in both languages exactly when it is not an empty list or object. |
| SsrAgreement.TestExactly | fse-ssr/src/runtime.ts:121-136 | A read used as a condition decides as in JavaScript exactly when its value is not an empty list or object and, being absent, it is a plain read. |
| SsrAgreement.ComparePathsExactly | fse-ssr/src/runtime.ts:387-437 | Comparing two reads, with any of the eight operators, decides as in JavaScript exactly when, for an equality, both are there, two equal lists or objects are the same one, and a loose one has nothing to coerce into equality; and, for an order, both are numbers. |
| SsrAgreement.CompareLitExactly | fse-ssr/src/runtime.ts:387-437 | The same for comparing a read with a literal, on either side. |
| SsrAgreement.NullComparisonExactly | fse-ssr/src/runtime.ts:387-437 | A comparison with `null` is answered at build time; rightly so, for `===` and `!==`, exactly for values that are not null, for `==` and `!=` exactly for values that are there and not null, and for an order exactly where it does not hold. |
| SsrAgreement.DecisionAgrees | fse-ssr/src/runtime.ts:121-197 | A condition whose values, as far as it comes to read them, meet these conditions decides as JavaScript does. |
| SsrAgreement.ShowExactly | fse-ssr/src/runtime.ts:286-336 | A value shown as content prints as in JavaScript exactly when it is there and not `false`. |
| SsrAgreement.FailedExactly | fse-ssr/src/runtime.ts:440-452 | What a failed condition shows in JavaScript, exactly: 0 if it failed with 0, else nothing. |
| SsrPages.PagePreserved | fse-ssr/src/runtime.ts:278-336 | A compiled page that captures no name, and reads no value on which the languages differ, renders for every context what JavaScript shows. |
| SsrPages.PlainPagePreserved | fse-ssr/src/runtime.ts:278-336 | The same for every page that follows the rule on the source. |
| SsrPages.ChoiceExactly | fse-ssr/src/runtime.ts:455-479 | A page choosing between two pieces of markup is preserved exactly when its condition decides as in JavaScript. |
| SsrPages.GuardExactly | fse-ssr/src/runtime.ts:440-452 | A page showing markup on a condition is preserved exactly when the condition decides as in JavaScript and does not fail with 0. |
| SsrPages.GuardedReadExactly | fse-ssr/src/runtime.ts:440-452 | `{key && <html>}` is preserved exactly where the key is absent or holds neither an empty list or object nor 0. |
| SsrPages.ChosenReadExactly | fse-ssr/src/runtime.ts:455-479 | `{key ? <a> : <b>}` is preserved exactly where the key does not hold an empty list or object. |
| SsrPages.ComparedReadExactly | fse-ssr/src/runtime.ts:387-437 | `{key === n ? <a> : <b>}` is preserved exactly where the key is there, with `==` exactly where it moreover holds nothing that coercion makes n, an order exactly where it is a number. |
| SsrPages.NullReadExactly | fse-ssr/src/runtime.ts:387-437 | `{key === null ? <a> : <b>}` is preserved exactly unless the key holds null, with `==` exactly where it is there and does not. |
| SsrPages.ShownReadExactly | fse-ssr/src/runtime.ts:286-336 | `{key}` is preserved exactly where the key is there and not `false`. |
| SsrPages.EmptyListHides | fse-ssr/src/runtime.ts:440-452 | `{items && <ul>}` on an empty list shows the list in JavaScript and nothing on the page, though the page follows the rule. |
| SsrPages.ZeroVanishes | fse-ssr/src/runtime.ts:440-452 | `{count && <p>}` on 0 shows 0 in JavaScript and nothing on the page. |
| SsrPages.AbsentOperandFails | fse-ssr/src/runtime.ts:387-437 | `{role === 'admin' ? <a> : <b>}` without a `role` shows the second in JavaScript and fails the render. |
| SsrPages.TextOrderFails | fse-ssr/src/runtime.ts:387-437 | `{low < high ? <x> : <y>}` on two texts is decided in JavaScript and fails the render. |
| SsrPages.LooseTextDiffers | fse-ssr/src/runtime.ts:387-437 | `{n == 5 ? <a> : <b>}` on the text 5 shows the first in JavaScript and the second on the page. |
| SsrAgreement.CountedKeyExactly | fse-ssr/src/runtime.ts:208-252 | A read is emitted with a filter inside a subscript exactly when one of its computed keys is a count. |
| SsrAgreement.CountedKeyEmitted | fse-ssr/src/runtime.ts:208-252 | The read `t[rows.length]` is emitted with the `length` filter inside the subscript. |
| Roles.RoleRoundTrip | framework/src/roles.rs:46-64 | Reading back a role's own name gives the role, for every declared role. |
| Roles.AdminIsNamed | framework/src/roles.rs:56-70 | For a lower-case stored role, being spelled exactly like an admin role is being read as an admin role. |
| Roles.ReadExactly | framework/src/roles.rs:46-55 | A stored text is read as the role it names in any letter case, and as the first role without access when it names none. |
| Roles.TrimExactly | framework/src/auth_module.rs:1108-1112 | Trimming takes all white space off both ends and nothing else. |
| AccountInvariant.StepKeeps | framework/src/auth_module.rs:94-1154 | Every handler, run as a whole, keeps unique addresses, unused ids, canonical roles, fresh sessions, a correct cache and sound single-use tokens. |
| AccountProofs.RunKeeps | framework/src/auth_module.rs:94-1154 | So does every run of whole handlers. |
| AccountProofs.AcceptedRole | framework/src/auth.rs:330-374 | A token accepted in a state that keeps the invariant names an existing account, is newer than its cutoff, and carries the stored role. |
| AccountProofs.AcceptedRoleIsStored | framework/src/auth.rs:330-374 | In every run of whole handlers from the empty table, any accepted token carries the role now stored for its user. |
| AccountColumns.AcceptsExactly | framework/src/auth.rs:330-374 | A token is accepted exactly when it was issued, has not run out, and was signed in a later second than the stored cutoff of an existing account. |
| AccountColumns.IssuedAfter | framework/src/auth_module.rs:259-305 | A step adds a token exactly when it is a sign-in with the right password to a verified account whose role has access; the token carries that role, now, and an hour. |
| AccountColumns.IssuedExactly | framework/src/auth_module.rs:259-305 | In every run the issued tokens are exactly those that such sign-ins signed. |
| AccountColumns.RowExactly | framework/src/auth_module.rs:94-1154 | Every step leaves every account with exactly the columns said: a password changes only by a used reset token, an address only by its confirmation (or, without verification, its request) while it is free, a role only by a permitted caller to a declared one and to or from admin only by an admin; the cutoff moves to the current second exactly then and on a revocation; tokens are stored for a day on request and emptied by their use. |
| AccountColumns.GivesExactly | framework/src/auth_module.rs:1096-1126 | The guards of a role change hold exactly when the caller may give that declared role. |
| AccountColumns.RowsAfter | framework/src/auth_module.rs:94-1154 | Rows come by registering a free address and by the bootstrap, under the next id, and go by deletion, an admin's only by an admin or its owner. |
| AccountColumns.CreatedRow | framework/src/auth_module.rs:381-484 | A new row has the address and hash given, the default role or the first admin role, and a verification token exactly where addresses are verified. |
| AccountColumns.EffectsAfter | framework/src/auth_module.rs:537-892 | Each consumed token is recorded once, with its kind, account and time, and nothing else is. |
| AccountColumns.CacheDropped | framework/src/auth.rs:263-280 | Whatever moves a cutoff or deletes an account drops its cached cutoff. |
| AccountColumns.CacheAfter | framework/src/auth.rs:287-298 | Otherwise a cutoff is cached when it is looked up and not younger than five seconds, with the row's value. |
| AdminRights.NamesAdminAgrees | framework/src/auth_module.rs:115-130 | The bootstrap's exact spelling test on the role column agrees with reading the role. |
| AdminRights.AdminGained | framework/src/auth_module.rs:1096-1133 | An account becomes admin only through the bootstrap of an app without any admin, or through a role change by a caller who is admin at that moment. |
| AdminRights.AdminLost | framework/src/auth_module.rs:943-1154 | An admin account loses the role only by an admin's role change or deletion, or by deleting itself. |
| AccountProofs.RevocationKills | framework/src/auth_module.rs:683-706 | Revoking, a role change, a password change, a confirmed address change and a deletion leave every token issued to that account at or before the cutoff. |
| AccountProofs.DeadStays | framework/src/auth.rs:272-280 | A token at or before its account's cutoff, or without an account, stays so in every step. |
| AccountProofs.DeadForever | framework/src/auth.rs:330-374 | Such a token is rejected in every continuation of the run. |
| AccountProofs.TokensUsedOnce | framework/src/auth_module.rs:537-567 | In every run of whole handlers each single-use token takes effect at most once, before its expiry, for its own purpose and on its own account. |
| AccountProofs.RowIsOwner | framework/src/auth_module.rs:804-895 | The token clause of a statement can only find the account the token was minted for, while it is unexpired. |
| AccountProofs.LeavingRetires | framework/src/auth_module.rs:592-598 | A token that leaves its column (used, replaced by a newer one, or with its account) is retired: no column holds it. |
| AccountProofs.RetiredStays | framework/src/auth_module.rs:94-1154 | No step puts a retired token back into a column. |
| AccountProofs.RetiredForever | framework/src/auth_module.rs:94-1154 | So a retired token never matches a row again, in any continuation. |
| AccountProofs.EffectsGrow | framework/src/auth_module.rs:94-1154 | Recorded effects are never rewritten: a run only appends to them. |
| LoginRaces.SignKeepsExactly | framework/src/auth_module.rs:259-305 | A signing keeps every admitted token's role fresh exactly when the role it read was not replaced with a cutoff in an earlier second. |
| LoginRaces.WriteKeepsExactly | framework/src/auth_module.rs:1117-1125 | An UPDATE keeps it exactly when no token of the account was signed in a later second than the cutoff it had bound, with another role than the row is left with. |
| LoginRaces.FreshExactly | framework/src/auth_module.rs:1117-1125 | In every interleaving of sign-ins, role changes and revocations, statement by statement, admitted tokens always carry the role then stored exactly when no token is signed in a later second than the cutoff of an UPDATE that leaves another role, whichever of the two comes last. |
| LoginRaces.OldRoleAdmitted | framework/src/auth_module.rs:259-305 | It happens: a sign-in that read the old role signs a second after the role change, and its token is admitted with the old role. |
| LoginRaces.LateWriteAdmitted | framework/src/auth_module.rs:1117-1125 | And the other way: a role change binds its cutoff, a sign-in reads and signs a second later, and the UPDATE leaves its token admitted with the old role. |
| LoginRaces.DeadExactly | framework/src/auth.rs:272-280 | In every interleaving a revoked token stays revoked exactly when no UPDATE of its account runs later that had bound its cutoff before the token was signed. |
| LoginRaces.RevokedTokenReturns | framework/src/auth.rs:272-280 | Of two revocations the one that bound first runs last, and a revoked token is admitted again. |
| ConfirmRaces.WriteKeepsExactly | framework/src/auth_module.rs:860-892 | The UPDATE of an address change keeps tokens single-use exactly when no other request used the token since this one's SELECT. |
| ConfirmRaces.OnceExactly | framework/src/auth_module.rs:860-892 | In every interleaving no address-change token takes effect twice, exactly when no request's SELECT and UPDATE enclose another's UPDATE for the same token. |
| ConfirmRaces.UsedTwice | framework/src/auth_module.rs:860-892 | It happens: two requests with one token both find the row and both write it. |
| ConfirmRaces.FindMatches | framework/src/auth_module.rs:861-872 | The SELECT finds a row as its clause over token and expiry does. |
| ConfirmRaces.SoundExactly | framework/src/auth_module.rs:860-892 | In every interleaving every address change uses the token then in the row, in time, exactly when between no SELECT and its UPDATE the account's token is reissued, cleared or used, or runs out. |
| ConfirmRaces.RetiredTakesEffect | framework/src/auth_module.rs:819-892 | A token reissued after the SELECT still takes effect, and clears the new one. |
| ConfirmRaces.LateEffect | framework/src/auth_module.rs:860-892 | A token that runs out after the SELECT takes effect late. |
| AdminRaces.ProperExactly | framework/src/auth_module.rs:1096-1154 | A write makes or removes an admin for someone who is admin at that moment, exactly unless an admin caller has lost the role since being accepted, or the target of a caller who never had it was promoted since it was checked. |
| AdminRaces.AlwaysProperExactly | framework/src/auth_module.rs:1096-1154 | In every interleaving admins come and go only by the bootstrap, by admins and by deleting themselves, exactly when no request is so overtaken. |
| AdminRaces.GainNeedsAdmin | framework/src/auth_module.rs:1096-1133 | Even when overtaken, nobody becomes an admin except by the bootstrap or by a caller accepted as one. |
| AdminRaces.NewAdminDemoted | framework/src/auth_module.rs:1096-1133 | It happens: a caller who is no admin checks a plain account, an admin promotes it, and the write demotes the new admin. |
| AdminRaces.DemotedAdminPromotes | framework/src/auth_module.rs:1096-1133 | And an admin demoted after being accepted still promotes. |
| AccountServer.Server.InvalidateSessionCache | framework/src/auth.rs:259-261 | Drops exactly that user's cached cutoff. |
| AccountServer.Server.RevokeSessions | framework/src/auth.rs:272-280 | Stamps the cutoff with the current second and drops the cached one. |
| AccountServer.Server.SessionCutoff | framework/src/auth.rs:287-298 | Serves the cached cutoff while it lives, else reads the table and caches what it read, absence included. |
| AccountServer.Server.FromRequest | framework/src/auth.rs:330-374 | Accepts exactly valid tokens issued strictly after the cutoff; an accepted token carries the stored role. |
| AccountServer.Server.BootstrapAdmin | framework/src/auth_module.rs:94-146 | Creates the first admin exactly when an address is configured, an admin role exists, no stored role is an admin role and the address is free. |
| AccountServer.Server.LoginSubmit | framework/src/auth_module.rs:259-305 | Issues a token exactly when the address is known, the password right, the account verified and its role one with access; the token carries the stored role, and nothing else changes. |
| AccountServer.Server.RegisterSubmit | framework/src/auth_module.rs:381-484 | Adds one account with the default role for an unused address; with address verification it is unverified and holds one fresh token. |
| AccountServer.Server.VerifyEmailLink | framework/src/auth_module.rs:537-567 | Verifies the one account holding the unexpired token and empties the column; any other token changes nothing. |
| AccountServer.Server.StoreResetToken | framework/src/auth_module.rs:592-598 | Stores a new reset token in place of the old one. |
| AccountServer.Server.ForgotPasswordSubmit | framework/src/auth_module.rs:580-621 | Mints a reset token for the account with that address, if there is one. |
| AccountServer.Server.ResetPasswordSubmit | framework/src/auth_module.rs:647-707 | Sets the password of the account holding the unexpired token, empties the column, and revokes its sessions. |
| AccountServer.Server.VerifyEmailChange | framework/src/auth_module.rs:849-895 | Moves the account to the staged address, unless none is staged or another account took it, and revokes its sessions. |
| AccountServer.Server.ChangeEmailSubmit | framework/src/auth_module.rs:767-847 | Changes or stages the caller's address, unless it is unchanged or taken. |
| AccountServer.Server.SettingsPasswordReset | framework/src/auth_module.rs:897-938 | Stores a reset token for the accepted caller's own account. |
| AccountServer.Server.DeleteAccount | framework/src/auth_module.rs:943-952 | Removes the accepted caller's own account and its cached cutoff. |
| AccountServer.Server.UserUpdate | framework/src/auth_module.rs:1096-1133 | Changes a role only with permission, to a declared role, and to or from admin only for an admin caller; the target's sessions are revoked. |
| AccountServer.Server.UserDelete | framework/src/auth_module.rs:1135-1154 | Deletes an account with permission, an admin's only for an admin caller. |
| SessionCache.StepKeeps | framework/src/auth.rs:227-298 | Every step of the interleaved lookup, SELECT, insert, UPDATE and invalidate keeps: an entry older than the row was overtaken or its revocation is still pending. |
| SessionCache.RunKeeps | framework/src/auth.rs:227-298 | So does every interleaving. |
| SessionCache.ServedWasRead | framework/src/auth.rs:287-298 | A cutoff served from the cache is one the row really had, inserted less than five seconds ago. |
| SessionCache.CacheCurrentExactly | framework/src/auth.rs:244-280 | With no revocation of the user between UPDATE and invalidate, a cached cutoff is the latest exactly when no UPDATE came between its own SELECT and insert. |
| SessionCache.StaleWithNothingInFlight | framework/src/auth.rs:263-280 | With no thread in flight the cache can still be stale: a read-through overtaken by a whole revocation inserts the old cutoff, and the revoked token is accepted. |
| SessionCache.InvalidateSettlesExactly | framework/src/auth.rs:272-280 | Completing a revocation leaves cache and flight at the row's value exactly when no read-through in flight holds another. |
| SessionCache.SettledDecides | framework/src/auth.rs:330-374 | Once settled, every decision about the user uses the row itself until the next UPDATE, so the very next request with an older token is rejected. |
| SessionCache.RevocationImmediateExactly | framework/src/auth.rs:263-280 | After a completed revocation every decision about the user, in every continuation up to the next UPDATE, is made on the row, exactly when no read-through in flight holds another cutoff. |
| SqlConditions.EvalConsumes | fse-orm/macros/src/filter.rs:63-99 | Evaluating any SQL fragment consumes exactly as many binds as it has placeholders. |
| Filters.EscapeLike | fse-orm/runtime/src/lib.rs:67-77 | The escape loop puts a backslash before each backslash, percent sign and underscore, and nothing else. |
| Filters.LikeLiteral | fse-orm/runtime/src/lib.rs:61-77 | An escaped text inside a LIKE pattern matches literally. |
| Filters.StartsWithIsPrefix | fse-orm/macros/src/filter.rs:152-155 | `starts_with` holds exactly of values with that prefix, letter case aside. |
| Filters.ContainsIsSubstring | fse-orm/macros/src/filter.rs:148-151 | `contains` holds exactly of values with that substring, letter case aside. |
| Filters.CompilesExactly | fse-orm/macros/src/filter.rs:35-209 | A filter compiles exactly when it is in the documented grammar over comparable columns of the table. |
| Filters.ErrorsJustified | fse-orm/macros/src/filter.rs:63-209 | A filter is refused for a fault it has: an operator, a column or a call as the error says. |
| Filters.WalkArgs | fse-orm/macros/src/filter.rs:212-243 | Every bind of a fragment is one of the fragment's own hoisted locals. |
| Filters.WalkMeaning | fse-orm/macros/src/filter.rs:63-185 | At every subexpression, evaluating the SQL with the binds left to right consumes exactly its text and binds and gives the meaning of the source, operator by operator, in three-valued logic. |
| Filters.OptMeaning | fse-orm/macros/src/filter.rs:156-175 | The `_opt` shape binds one local twice and means: no value given, or the condition holds. |
| Filters.OneBindPerPlaceholder | fse-orm/macros/src/filter.rs:101-175 | At every subexpression there is one bind per placeholder. |
| Filters.WalkQualifies | fse-orm/macros/src/filter.rs:30-34 | Every column is named under the given qualifier, at every subexpression. |
| Filters.FilterPreserved | fse-orm/macros/src/filter.rs:35-53 | A compiled filter selects exactly the rows its source expression selects; `all` selects every row. |
| FilterBuilder.Filter.Bind | fse-orm/macros/src/filter.rs:211-243 | Hoists one local and binds it once or twice, in placeholder order. |
| FilterBuilder.Filter.Comparison | fse-orm/macros/src/filter.rs:101-111 | Emits the comparison of the named column with one new bind, or the column's error. |
| FilterBuilder.Filter.Method | fse-orm/macros/src/filter.rs:113-185 | Emits the call's fragment and pushes exactly its locals and binds, or the call's error. |
| FilterBuilder.Filter.WalkInto | fse-orm/macros/src/filter.rs:63-99 | The walk over a mutable filter returns the fragment's text and pushes exactly its locals and binds. |
| FilterBuilder.CompileFilter | fse-orm/macros/src/filter.rs:35-53 | Compiling gives the fragment the specification gives. |
| ResourceProofs.FetchFindsVisible | framework/macros/src/resource.rs:212-222 | `get` finds a row exactly when it is visible to the caller and has that id. |
| ResourceProofs.VisibleIdsExact | framework/macros/src/resource.rs:224-240 | `visible_ids` names exactly the visible rows; no list means every row is visible. |
| ResourceProofs.ScopeExactly | framework/macros/src/resource.rs:155-210 | The scope holds exactly of what the caller may see: for a visitor the public scope, for a user the scope hook and, unless admin, their own rows, under a parent they may read and see; and only under the parent asked for. |
| ResourceProofs.MayReadExactly | framework/src/models/mod.rs:520-545 | The permission to read is the model's own, else its parent's, else its table's, and admins need none. |
| ResourceProofs.PagesCover | framework/macros/src/resource.rs:495-508 | Reading page after page reads the whole list once, in order. |
| ResourceProofs.ListShowsVisible | framework/macros/src/resource.rs:472-511 | Paging through an unfiltered list shows every visible row exactly once and nothing else. |
| ListRules.SearchExactly | framework/macros/src/resource.rs:350-372 | A search keeps exactly the rows in which some searchable column the reader may see contains the term. |
| ListRules.FilterExactly | framework/macros/src/resource.rs:373-412 | A filter keeps exactly the rows that the first column answering to it asks for: a value, a flag, a text, or one end of a range. |
| ListRules.FiltersExactly | framework/macros/src/resource.rs:373-412 | Filters keep exactly the rows that pass every one that is not empty. |
| ListRules.ListShowsListed | framework/macros/src/resource.rs:472-511 | Paging through any list shows exactly once each row that is visible, found by the search and passes the filters, and no other; the total is their number. |
| ListRules.PageExactly | fse-orm/runtime/src/builder.rs:89-111 | A page holds what lies between its ends, both arguments counting as one when smaller. |
| ListRules.SortKeyExactly | framework/macros/src/resource.rs:414-460 | A list is sorted by the column asked for if it is neither hidden nor json nor private before a visitor, else by the default of its kind. |
| ListRules.ListOrder | framework/macros/src/resource.rs:414-511 | Of two rows of a list the first has the earlier value in the sort column, the later one when sorting down, or the same value and the smaller key; null comes before all, numbers before texts. |
| ListRules.JsonExactly | framework/macros/src/resource.rs:120-160 | A row is shown with exactly its columns that are not hidden, nor private before a visitor, and its key. |
| ResourceProofs.SortedInOrder | framework/macros/src/resource.rs:495-505 | Sorted rows are ordered by the key in its direction, and rows with equal keys by primary key. |
| ResourceProofs.ListInOrder | framework/macros/src/resource.rs:472-511 | A list comes in the order asked for, search and filters included. |
| ResourceProofs.VisibleChildHasVisibleParent | framework/macros/src/resource.rs:174-191 | A nested row a user can reach lies under a parent row the user may read and reach, which is the parent of the request. |
| ResourceProofs.PrivateColumnsStayPrivate | framework/macros/src/resource.rs:350-512 | Two tables that differ only in private columns give an anonymous visitor the same rows, order and total, for every search, filter, sort and page. |
| ResourceStore.AcceptedForm | framework/macros/src/resource.rs:687-897 | An accepted form writes exactly the form columns, each as its field reads, and points the row at nothing the user cannot see. |
| ResourceStore.RejectedExactly | framework/macros/src/resource.rs:687-897 | A column is rejected exactly when its field does not read, or names a row the user may not point at and the row did not name before. |
| ResourceStore.RefExactly | framework/src/models/mod.rs:500-545 | A foreign key may name a row of a registered model exactly when the user may read that model and sees the row. |
| ResourceStore.FiledExactly | framework/macros/src/resource.rs:687-897 | A created row belongs to its creator and lies under the parent asked for; the rest is the form's. |
| ResourceStore.CreatedIsVisible | framework/macros/src/resource.rs:155-210 | Its creator sees a created row exactly where the scope hook shows it and under a parent they see. |
| ResourceStore.UpdateKeepsPlace | framework/macros/src/resource.rs:687-897 | An update leaves every other row alone and moves no row to another owner or parent. |
| ResourceStore.Store.List | framework/macros/src/resource.rs:472-511 | The list loop gives scope, search, filters, order and one page of rows as specified. |
| ResourceStore.Store.Delete | framework/macros/src/resource.rs:1088-1116 | Deletes exactly that row, exactly when `get` finds it for the caller and the hook allows it. |
| ResourceStore.Store.ReadForm | framework/macros/src/resource.rs:687-897 | Reads every form column and rejects exactly those whose field does not read or whose foreign key names a row the user cannot see. |
| ResourceStore.Store.Update | framework/macros/src/resource.rs:687-897 | Writes exactly when `get` finds the row for the caller, the hook allows it and no column is rejected; the row becomes what it was, overwritten by the form. |
| ResourceStore.Store.Create | framework/macros/src/resource.rs:687-897 | Adds one row of the form's values, owned by the caller and filed under the request's parent; a nested model needs one. |
| ResourceStore.Store.Act | framework/macros/src/resource.rs:1118-1162 | Runs a declared action exactly on a row `get` finds for the caller and the hook allows. |
| ModelCheck.CheckNesting | framework/src/models/mod.rs:565-584 | Reports a model exactly when its parent is missing, itself nested, or the nested model is public. |
| ModelCheck.CheckSegments | framework/src/models/mod.rs:585-614 | Reports exactly repeated and reserved segments; repeats are found as equal neighbours after sorting. |
| ModelCheck.SegmentsExactly | framework/src/models/mod.rs:585-614 | Segments repeat exactly when two children, two links, or a child and a link of the model want the same one, and hold exactly what one of them wants. |
| ModelCheck.WellExactly | framework/src/models/mod.rs:585-614 | A model's segments pass exactly when none clash and none is `actions`, `create` or `delete`. |
| ModelCheck.ChildExactly | framework/src/models/mod.rs:586-590 | A child is a model whose parent column references the struct this model is the first of. |
| ModelCheck.Check | framework/src/models/mod.rs:559-614 | Reports nothing exactly when every model passes, and every failing model is named. |
| ModelCheck.CheckedNesting | framework/src/models/mod.rs:546-584 | Checked models nest one level deep, which is what makes the scopes' recursion through parents end. |
| TextOrder.RepeatsAreNeighbours | framework/src/models/mod.rs:600-607 | In sorted texts a repeat shows as two equal neighbours, and only then. |
| Ancestry.NoLeafMeansCycles | framework/src/themes.rs:401-403 | If everyone has a child, everyone lies on a cycle (pigeonhole over names). |
| Ancestry.ClosedMeansCycle | framework/src/dev.rs:270-274 | A nonempty set of names closed under taking parents holds a cycle. |
| Themes.StackIsWalk | framework/src/themes.rs:405-426 | A stack is the walk up the parent links, and the walk ends with it. |
| Themes.StackUnique | framework/src/themes.rs:405-426 | There is at most one stack from a start, and it repeats no theme. |
| Themes.ErrorMeansNoStack | framework/src/themes.rs:360-427 | A cycle, a missing parent or an unbuilt theme met on the walk rules every stack out. |
| Themes.NoLeafAllOnCycles | framework/src/themes.rs:387-403 | When no theme is a leaf, every installed theme really lies on an inheritance cycle. |
| Themes.ByName | framework/src/themes.rs:364-373 | Succeeds exactly when names are unique; an error names a repeated theme. |
| Themes.PickActive | framework/src/themes.rs:375-403 | Finds the theme to activate, if there is one: the configured one when it is installed, or the one installed theme that no other names as parent; each error states why there is none. |
| Themes.Climb | framework/src/themes.rs:405-426 | Ends, with the stack from the start or with an error that stops the walk. |
| Themes.Resolve | framework/src/themes.rs:360-427 | Succeeds exactly when themes are installed, names are unique, and the theme to activate heads a stack, and returns that stack; errors report true facts. |
| ThemeTemplates.PathsNameTheTemplate | framework/src/themes.rs:550-567 | Naming a path and looking a name up agree except for `index/index.html`, and for names ending in `/index`. |
| ThemeTemplates.TemplateSources | framework/src/themes.rs:457-471 | Filling the map from the root ancestor up gives each key the most specific theme's claim. |
| ThemeTemplates.PlainIsMostSpecific | framework/src/themes.rs:457-471 | A plain name shows the first theme, child first, that has the template. |
| ThemeTemplates.OwnCopyServed | framework/src/themes.rs:457-471 | The key `@theme/name` shows theme i's own copy exactly when the more specific themes put nothing else under it and no later file of the theme itself, literally so named, replaces it; for any names. |
| ThemeTemplates.OwnCopyExactly | framework/src/themes.rs:457-471 | For distinct theme names without `/`, exactly when the first more specific template literally named `@theme/name`, or failing one the theme's own last such file, is not another source. |
| ThemeTemplates.OwnCopyAvailable | framework/src/themes.rs:454-471 | So a chain without template names starting in `@` serves every theme's own copy. |
| ThemeTemplates.OwnCopyCanBeTaken | framework/src/themes.rs:466-469 | A template file named like a qualified copy takes its place: the condition on names is needed. |
| ThemeTemplates.Repair | framework/src/themes.rs:503-518 | Whichever orphan is dropped first, what stays is the greatest set closed under `extends`, and each dropped template is reported exactly once. |
| ThemeTemplates.GreatestUnique | framework/src/themes.rs:503-518 | There is only one such set. |
| ThemeTemplates.ParseAll | framework/src/themes.rs:494-502 | Keeps exactly what parses and reports the rest once each. |
| ThemeTemplates.LoadInto | framework/src/themes.rs:473-522 | Offers everything, or the greatest closed set of what parses, reporting exactly the templates left out; the repaired batch is refused, and reported, exactly when that set has a circle of `extends`. |
| ThemeTemplates.CircleIsRefused | framework/src/themes.rs:473-522 | Two pages extending each other and a sound one: nothing is dropped or named, and the batch with the sound one is refused. |
| BuildOrder.ParentsFirst | framework/src/dev.rs:257-279 | Returns a permutation in which every theme whose parents end comes after its local parent; the fallback runs exactly when some theme is its own ancestor. |
| BuildOrder.Round | framework/src/dev.rs:260-269 | A round that adds nothing leaves only themes waiting for an undone local parent. |
| BuildOrder.OrderMeansNoCycle | framework/src/dev.rs:256-279 | An order with every local parent first proves there is no cycle. |
| Locales.MergeLocale | framework/src/i18n.rs:69-86 | The key-by-key loop, in any order of keys, is the merge function. |
| Locales.MergeAt | framework/src/i18n.rs:69-86 | What a merge has at every path, in terms of both sides. |
| Locales.OverlayWins | framework/src/i18n.rs:69-86 | Every leaf of the overlay wins, every path it does not touch survives, and no leaf comes from elsewhere. |
| Locales.MergeTwice | framework/src/i18n.rs:69-86 | Merging the same overlay twice changes nothing. |
| Locales.FillTwice | framework/src/i18n.rs:139-144 | Filling in from the same base twice changes nothing. |
| Locales.BuildLocales | framework/src/i18n.rs:99-122 | The layering loops give each language the fold of its layers. |
| Locales.LastLayerWins | framework/src/i18n.rs:88-98 | The topmost layer that touches a path with a leaf decides it. |
| Locales.FrameworkSurvives | framework/src/i18n.rs:88-98 | A framework translation no layer touches is still there. |
| Locales.ResolveLocales | framework/src/i18n.rs:131-147 | The resolving loop, in any order of languages, is the resolution function. |
| Locales.FallbackPerKey | framework/src/i18n.rs:124-147 | The default language is unchanged; others keep their leaves and show the default at every path they do not touch. |
| Locales.ResolveTwice | framework/src/i18n.rs:131-147 | Resolving twice changes nothing. |
| Locales.NoDefaultNoChange | framework/src/i18n.rs:135-138 | Without a locale for the default language nothing changes. |
| Locales.ServedText | framework/src/i18n.rs:88-147 | From layers to page: a path a language never touches shows the default language's topmost layer. |
| ScriptNonces.InjectScriptNonce | framework/src/lib.rs:1620-1649 | The scanning loop stamps exactly the bare script tags. |
| ScriptNonces.ScriptIsStamped | framework/src/lib.rs:1609-1649 | A `<script` before `>` or white space is stamped unless it declares a nonce. |
| ScriptNonces.OthersAreNot | framework/src/lib.rs:1611-1649 | A `<script` before any other visible character is not. |
| ScriptNonces.DeclaredExactly | framework/src/lib.rs:1637-1644 | A tag declares a nonce exactly when `nonce=` stands somewhere before its `>`. |
| ScriptNonces.StampingOnlyAdds | framework/src/lib.rs:1611-1615 | The output is the input with the attribute inserted after bare script openings; look-alikes and tags with a nonce are untouched. |
| ScriptNonces.EveryBareTagGrows | framework/src/lib.rs:1609-1615 | Every bare tag is stamped: the page grows by one attribute for each. |
| ScriptNonces.EveryTagDeclares | framework/src/lib.rs:1609-1649 | Afterwards every real script tag has `nonce=` before its next `>`. |
| ScriptNonces.StampTwice | framework/src/lib.rs:1637-1644 | A second run, with any nonce, changes nothing. |
| ScriptNonces.NonceOf | framework/src/lib.rs:1480-1495 | The nonce is two lower-case hex digits per byte, from which the bytes can be read back. |
| NumberFormats.RegionFallsBack | framework/src/filters.rs:101-147 | A regional tag without an entry of its own is written like its language. |
| NumberFormats.MarksExactly | framework/src/filters.rs:101-147 | Which tags write which decimal mark and which group mark. |
| NumberFormats.EveryEntryReadable | framework/src/filters.rs:101-147 | For every tag the decimal and group marks differ from each other, from digits and from the sign. |
| NumberFormats.UnitsExactly | framework/src/filters.rs:406-420 | Rounding prints the lower unit up to just below the middle, the upper one from there on, and keeps the sign. |
| NumberFormats.HalfUnitExactly | framework/src/filters.rs:394-416 | Rounding errs by at most half a unit exactly outside the sliver just below a tie, and always by less than half plus the tolerance. |
| NumberFormats.BelowHalfRoundsUp | framework/src/filters.rs:394-416 | The double just below one half is printed as 1. |
| NumberFormats.Symmetric | framework/src/filters.rs:406-420 | Rounding is symmetric about zero. |
| NumberFormats.TieGoesAway | framework/src/filters.rs:394-416 | A tie goes away from zero. |
| NumberFormats.Group | framework/src/filters.rs:426-437 | The separator loop gives groups of three from the right. |
| NumberFormats.GroupsOfThree | framework/src/filters.rs:426-437 | Separators stand exactly where a multiple of three digits follows, never first. |
| NumberFormats.Ungrouped | framework/src/filters.rs:426-437 | Dropping the separators gives the digits back. |
| NumberFormats.FormatNumber | framework/src/filters.rs:418-444 | Prints the sign, the grouped whole part and exactly the asked-for places of the rounded units, with the language's marks. |
| NumberFormats.ReadsBack | framework/src/filters.rs:418-444 | Every printed number reads back as its sign, units and places, for marks that differ. |
| NumberFormats.TextTellsValue | framework/src/filters.rs:101-147 | So for every language different values print differently. |
| PruneGate.StepKeeps | framework/src/rate_limiter.rs:203-217 | Every atomic step of any thread keeps: the cell holds the latest prune, prunes are a minute apart, none is in the future. |
| PruneGate.AtMostOncePerMinute | framework/src/rate_limiter.rs:199-217 | In every interleaving, stale relaxed loads included, there is at most one prune per minute since the start, any two a minute apart. |
| PruneGate.SwapRaises | framework/src/rate_limiter.rs:209-216 | A winning swap raises the shared value by at least a minute. |
| PruneGate.OneWinner | framework/src/rate_limiter.rs:208-216 | Of two threads that loaded the same value, the second swap fails. |
| PruneGate.AloneIsAtomic | framework/src/rate_limiter.rs:203-217 | A thread left alone prunes exactly when a minute has gone by. |
| PruneGate.Shared.MaybePrune | framework/src/rate_limiter.rs:203-217 | The uninterrupted method does the same. |
| CronLogs.TakenExactly | framework/src/cron.rs:365-375 | Which files a job's rotation takes for its own: its own, those of a job named like it plus `_` and a digit, and those of a job it is named after with that log's date added. |
| CronLogs.ExtendedLogsDeleted | framework/src/cron.rs:335-375 | A job that keeps one log deletes every log of a job named like it plus `_` and a digit. |
| CronLogs.ReportDeletesReport2 | framework/src/cron.rs:335-375 | So a run of `report` deletes the log of `report_2`. |
| CronLogs.NamesSortByTime | framework/src/cron.rs:335-338 | Within a job file names sort by time. |
| CronLogs.NewestOf | framework/src/cron.rs:352-362 | Keeping the newest n keeps n, or all if fewer, and nothing kept is older than anything dropped. |
| CronLogs.LogFolder.PruneOldLogs | framework/src/cron.rs:339-363 | Deletes exactly the job's logs beyond its newest, whatever order the folder lists them in. |
| CronLogs.LogFolder.ExecuteJob | framework/src/cron.rs:204-217 | Prunes to leave a free slot, then writes the run's file. |
| CronLogs.OwnLogsOnly | framework/src/cron.rs:365-375 | With names apart a rotation takes its own job's logs and no other's. |
| CronLogs.OtherRun | framework/src/cron.rs:335-363 | Another job's run leaves a job's logs alone. |
| CronLogs.AlwaysRecent | framework/src/cron.rs:319-363 | In every history with non-decreasing times, a job's logs in the folder are its own most recent ones. |
| CronLogs.AlwaysBounded | framework/src/cron.rs:30-38 | With KeepLast(n) a job never has more than max(n, 1) logs. |
| CronLogs.AlwaysFull | framework/src/cron.rs:30-38 | In every history without two runs in one second, a job has exactly its last max(n, 1) logs, or all while they are fewer; without a limit it has all. |
| CronLogs.NewRunSize | framework/src/cron.rs:324-333 | A run in a new second drops a log only to make room. |

## Left out

- The `??` fallback, attribute rendering and the markup escaping of `fse-ssr`, the property names its proxies intercept for
  Astro (`then`, `toString`, `toJSON` and the like), a bare `ssr()` root value, and comparisons of two constants.
- How a list, an object or a date prints as text, in either language; inherited and prototype properties; lengths in
  UTF-16 units; `NaN` and the negative zero; and a page with a filter inside a subscript, which Tera's grammar lacks.
- SsrTemplateProofs.PageRendered: for pages whose reads no loop captures and that use no count as a key; decided
  by Tera's truth, so `SsrPages` relates it to JavaScript.
- SsrTemplateProofs.ContentAgrees: the same condition, for one expression inside loops.
- SsrTemplateProofs.TruthAgrees: by Tera's truth; `SsrAgreement.DecisionAgrees` is the comparison with JavaScript.
- SsrTemplateProofs.ConditionAgrees: by Tera's truth, likewise.
- SsrCapture.PlainPageRendered: by Tera's truth, likewise.
- SsrPages.PagePreserved: its condition is exact for each value read and for the pages of `ChoiceExactly`,
  `GuardExactly` and the lemmas on single reads; of a whole page it is sufficient only, as two branches may look alike.
- SsrPages.PlainPagePreserved: likewise.
- SsrAgreement.TestExactly: of reads each of whose steps agrees, which `MemberExactly`, `CountExactly` and `ComputedExactly`
  decide; a read that differs on the way could still come to a value that tests alike.
- SsrAgreement.ShowExactly: likewise.
- SsrAgreement.ComparePathsExactly: likewise.
- SsrAgreement.CompareLitExactly: likewise.
- HTTP, routing, cookies, CORS, the policy text, mail, PDF, QR codes and the development proxy: wrappers over libraries.
- Password hashing, token signing, the SQL engine and the cache library: abstract. The cache is a map with a time to live
  and arbitrary evictions.
- Letter case beyond ASCII.
- Names of users, the session cookie an application may issue itself, validation of form fields at registration, mail
  sending and its failures.
- AccountServer.Server.LoginSubmit: whether the password is right is a parameter; reading the role and signing are one
  step, which `LoginRaces` takes apart.
- AccountServer.Server.RegisterSubmit: addresses come validated and normalised.
- AccountServer.Server.ChangeEmailSubmit: addresses come parsed, and its statements run as one.
- AccountServer.Server.VerifyEmailChange: SELECT and UPDATE are one step, which `ConfirmRaces` takes apart.
- AccountProofs.AcceptedRoleIsStored: for runs of whole handlers; `LoginRaces.FreshExactly` is about interleavings.
- AccountProofs.TokensUsedOnce: for runs of whole handlers; `ConfirmRaces.OnceExactly` is about interleavings.
- AccountProofs.RetiredForever: for runs of whole handlers; `ConfirmRaces.SoundExactly` is about interleavings.
- AccountProofs.DeadForever: for runs of whole handlers; `LoginRaces.DeadExactly` is about interleavings.
- AccountProofs.RevocationKills: likewise.
- AdminRights.AdminGained: for whole handlers; `AdminRaces.AlwaysProperExactly` is about interleavings.
- AdminRights.AdminLost: likewise.
- ConfirmRaces.OnceExactly: about reuse alone; reissue and expiry in between are `SoundExactly`.
- The statements of registering, of password resets and of the bootstrap are not interleaved.
- SessionCache.InvalidateSettlesExactly: about the values held; `RevocationImmediateExactly` is about the decisions.
- Uniqueness checks, slugs and the before and after hooks of generated writes, hashing of secret columns, related rows in
  lists (`refs`, shown relations), row-action lists, and public lookup by slug.
- ResourceStore.AcceptedForm: the form after the hooks, slugs and defaults, which are left out.
- ResourceStore.Store.ReadForm: without uniqueness checks and hooks that rewrite the form.
- ResourceStore.Store.Create: without save hooks, defaults and uniqueness checks.
- ResourceStore.Store.Update: without save hooks and uniqueness checks.
- ResourceStore.Store.Delete: `before_delete` and `after_delete`, which may fail, are left out.
- ResourceStore.Store.Act: without the action's own effect and failure.
- The boot check's rules on shown relations, on link ends and on routes generated twice; attribute parsing and OpenAPI.
- ModelCheck.Check: covers nesting, publicness and segments only.
- ORM macros for finding, inserting and updating, schema comparison and migrations.
- Theme discovery on disk, manifests, assets, `has_template` beyond its paths, and dev servers.
- BuildOrder.ParentsFirst: says nothing about two local themes of one name, of which only one would be built.
- ThemeTemplates.LoadInto: what a refused batch leaves in the engine is not said; the source calls it half-filled.
- The text of theme and locale files: parsing and JSON decoding are given. The merge of locales is not associative when a
  leaf stands between two objects, and nothing is said about regrouping layers.
- The router bridge script, and the search of `inject_script_nonce` in bytes rather than characters.
- ScriptNonces.StampTwice: for nonces without `<`, as every generated one is (`NonceOf`).
- NumberFormats.FormatNumber: of finite exact decimals, doubles being some of them; the arithmetic is exact.
- Dates, currency symbols, `natural_precision`, binary floating-point, infinities and the negative zero input of number
  formatting; trimming and lower-casing of language tags.
- Governor's buckets and what a prune removes.
- Deletion failures, clock changes and years beyond four digits in log rotation; the contents of log files.
- Observability, configuration, schema comparison and slugs: they would add only easy members.
