# Theta Directory: verified model of its graph, rule and allocation algorithms

This project models the algorithms of Theta Directory that decide something, and proves what each of them
promises, for all inputs, all graphs (cyclic ones included) and all runs:

- **Status rules** (`StatusRules`, `StatusRuleGrammar`, `StatusRuleLexer`, `StatusRuleText`, `StatusRuleLanguage`): the
  tokenizer and the two-stack evaluator of monitoring conditions. Evaluating a text gives the recursive meaning of the
  expression it spells, and the accepted texts are characterized from both sides, at last as those of the documented
  language, layer by layer.
- **Walks over the resource graph** (`ResourceGraph`, `BubblingWalk`, `GraphViews`, `GraphAnswer`, `UpwardWalks`): the
  memoised recursive walks with a shared visited set, on graphs that may be cyclic and may name rows that do not exist.
- **Access** (`AccessInheritance`, `AccessLevels`, `LoginAnswer`, `AccessProjection`, `AccessAnswer`): the worklist that
  hands grants down the graph, how a caller's grants and a host's login list are merged from the same rows, and the
  two-pass list of what a caller may reach.
- **Nested groups** (`NestedGroups`, `GroupNaming`, `ResourceGroups`, `GroupLattice`): the depth-capped closures up and
  down, the cycle test, the names of groups, and the lattice of groups that provisioning builds.
- **Discovery** (`ResourceMatcher`, `MatchAnswer`, `DiscoveryMerge`, `DiscoveryClasses`, `DiscoveryFacts`,
  `DiscoveryEdges`, `EdgeAnswer`, `DiscoveryReconciler`, `DiscoveryOutcome`, `DiscoveryRetention`): tiered identity
  matching, identity classes, the merge loop, the edge loop with its cycle refusal and reparenting, site parenting,
  pruning, purging, forgetting a source and garbage collection.
- **LDAP ServerIDs** (`SpokeRegistry`, `SpokeFacts`, `ServerIdRepair`): locked registration as a state machine over
  interleaved processes, and the start-up repair of duplicate ids.

The modules named for an answer, facts, an outcome, a language or a lattice say in the fields and words of the inputs
what the operations answer, without the definitions the operations are specified by.

`Graph` and `Directory` hold what the others share: reachability by steps, and rows, edges and indexes over them.

Where the program updates things step by step the model does too: classes `RollUp`, `Bubbler`, `SiteIndex`,
`GroupDirectory`, `SpokeTable`, `Repairer` and `Reconciler` hold the caches and stores, their methods change them, and
each method is proved against a relation or a function over the old and new state. The lemmas are about those.

`dafny verify dfyconfig.toml` checks everything.

## Where the code does less than it seems to

- The evaluator also accepts operand lists that no expression prints, such as `true true &&`
  (`StatusRuleGrammar.PostfixIsAccepted`). Outside juxtaposed operands it accepts exactly the printed expressions
  (`StatusRuleGrammar.AcceptedIffPrinted`).
- The walks without a `truncated` flag (tags, and the scheduler's environment) are complete when no two different rows
  are below each other; a row below itself does no harm. On every graph with two such rows, some values and some order
  of requests lose a tag (`GraphViews.TwoCycleLosesTag`) and an environment (`GraphViews.TwoCycleLosesEnvironment`).
- A group may be linked to one resource by several rows. The host login list then follows the last row and a caller's
  own view the strongest one; they agree on every graph and for every caller exactly when the last row decides like
  the strongest (`AccessLevels.LoginAgreesIff`, `AccessLevels.TwoRowsDisagree`).
- The list of accessible resources depends on the order of the rows exactly when some row is reachable only through a
  row that is itself only inherited (`AccessProjection.CallOrderMattersIff`).
- `wouldCycle` is right exactly within the depth cap (`NestedGroups.CycleTestIff`, `NestedGroups.BeyondTheCap`).
  Provisioned groups stay far below the cap unless two requests clash (`ResourceGroups.CapCutsNothing`), and nestings by
  hand stay acyclic exactly while the cap hides nothing from the test (`ResourceGroups.NestingsStayAcyclicIff`).
- Group names are built with `_`, which may also occur in a site's slug, so two roles can share a name:
  `GroupNaming.NameIsSharedIff` says exactly which. Provisioning is exact and acyclic all the same
  (`ResourceGroups.ProvisioningIsExact`), but its chains stay within three links exactly when no two requests clash
  (`ResourceGroups.ShallowIff`, with a run in `ResourceGroups.TowerIsDeep`), and no depth cap is enough for all of them
  (`ResourceGroups.CapCutsTower`).
- A report that names an IP again with an empty MAC wipes the MAC stored for it, and then a second device at that IP is
  merged into the row (`DiscoveryMerge.BlankMacLosesIdentity`). `DiscoveryMerge.TwoDevicesShareIff` says exactly when a
  report leaves its row open to another device.
- Identity classes keep a controller out of the server it manages (`DiscoveryClasses.ClassesStayApart`), but not when it is
  stored by its subtype and reported again by its kind with a subtype that has no template: the row then takes the class of
  its own kind (`DiscoveryClasses.ClassKeptIff`, `DiscoveryClasses.VagueSubtypeMixesClasses`).
- A comment in `nodejs/services/resource_groups.js:183-184` says that an aggregate's admins reach each resource by membership.
  The nesting makes each resource's admins members of the aggregate instead (`GroupLattice.AggregateIsAbove`).
- A spoke found by its endpoint may name another spoke's site, which then has two rows
  (`SpokeRegistry.RegistrationKeepsSitesIff`, `SpokeRegistry.SitesCanBeDoubled`). Over interleaved runs that is the only
  way to lose one row per site (`SpokeRegistry.RunsKeepSitesIff`).
- A site with a blank slug hides the sites beside it from the upward search (`UpwardWalks.BlankSiteHidesSite`).
- Parenting loose devices to the site makes no cycle test. It keeps the graph acyclic exactly when no adopted row is
  above the site (`DiscoveryEdges.ParentingAcyclicIff`), and can close a cycle (`DiscoveryEdges.ParentingCanCloseACycle`).
- A comment in `nodejs/services/discovery_reconciler.js:415-417` says that a re-discovered row is restored from the
  archive. The code does not do that (`DiscoveryReconciler.RediscoveryKeepsArchived`); the model follows the code.

## Model

| member | source | states |
|---|---|---|
| `StatusRules.EvaluatesPrinted` | nodejs/services/scheduler.js:100-185 | for every expression tree, printed with the fewest parentheses, the two-stack evaluator does not throw and returns the tree's recursive value |
| `StatusRuleGrammar.FewestParentheses` | nodejs/services/scheduler.js:95-185 | of all token lists that spell a tree, with whatever parentheses, the printed one opens the fewest, and they all mean the same |
| `StatusRules.EvaluateTokens` | nodejs/services/scheduler.js:147-184 | the loops over the operand and operator stacks compute the stack machine that the other results are about, error cases included |
| `StatusRuleGrammar.AlternatesIffPrinted` | nodejs/services/scheduler.js:100-185 | a token list is some expression's printed form if and only if operands and operators alternate and parentheses balance |
| `StatusRuleGrammar.AcceptedIffPrinted` | nodejs/services/scheduler.js:147-184 | of the lists without juxtaposed operands, the evaluator accepts exactly the printed expressions |
| `StatusRuleGrammar.PostfixIsAccepted` | nodejs/services/scheduler.js:147-184 | a list that no expression prints is accepted and given a value |
| `StatusRuleLexer.Tokenize` | nodejs/services/scheduler.js:187-281 | the index-advancing scanner terminates on every text and computes the token function below |
| `StatusRuleLexer.ScanQuoted` | nodejs/services/scheduler.js:214-239 | the inner loop reads a quoted text up to its closing quote, undoing escapes, or fails when there is none |
| `StatusRuleText.LexIffSpelled` | nodejs/services/scheduler.js:187-281 | the tokenizer answers with a token list if and only if the text spells that list: every accepted text is a spelling, every spelling is accepted |
| `StatusRuleText.LexRendered` | nodejs/services/scheduler.js:187-281 | tokenizing rendered lexemes (strings in either quote, numerals, paths, literals, operators, parentheses) gives their tokens back, wherever in a text they stand |
| `StatusRuleText.EveryTextIsQuotable` | nodejs/services/scheduler.js:214-239 | every text can be written in either kind of quotes so that the tokenizer reads it back |
| `StatusRuleText.BadPathIffEmptyPart` | nodejs/services/scheduler.js:251-275 | the three textual checks on a path reject it if and only if one of its steps is empty |
| `StatusRuleText.GapSeparates` | nodejs/services/scheduler.js:187-281 | a gap of at least one space lets any two lexemes follow each other |
| `StatusRuleText.TextHasMeaning` | nodejs/services/scheduler.js:100-281 | however an expression is spelled, quoted and spaced, evaluating its text gives its meaning |
| `StatusRuleText.AcceptedTextHasMeaning` | nodejs/services/scheduler.js:100-281 | an accepted text without juxtaposed operands is some expression's text and has that meaning, or is blank and false |
| `StatusRuleLanguage.EvaluateCondition` | nodejs/services/scheduler.js:100-185 | from text to value: a text of the documented language (or over and over equality over comparison over not) has the value of its tree; without juxtaposed operands, anything else that is accepted is blank, and false |
| `StatusRuleLanguage.WrittenHasValue` | docs/status-rules.md:56-98 | every text of the language, however it is spaced, has the value its layers give it |
| `StatusRuleLanguage.AcceptedIsWritten` | docs/status-rules.md:56-98 | every accepted text that is not blank and has no juxtaposed operands is a text of the language |
| `StatusRuleLanguage.PartsDecide` | nodejs/services/scheduler.js:119-128 | for any two texts of the language and any of the eight symbols, the value of `(l) symbol (r)` comes from those of `l` and `r`: each comparison gives its own truth value |
| `StatusRuleLanguage.PartDecides` | nodejs/services/scheduler.js:111-115 | parentheses keep the value of a text, and `!` gives the truth value that it is falsy |
| `StatusRuleLanguage.Conjunction` | nodejs/services/scheduler.js:125 | a conjunction is truthy when both parts are, and gives the left one exactly when that is falsy |
| `StatusRuleLanguage.Disjunction` | nodejs/services/scheduler.js:126 | a disjunction is truthy when one part is, and gives the left one exactly when that is truthy |
| `StatusRuleLanguage.OperandIff` | nodejs/services/scheduler.js:92-93 | an operand is a path from one of the five roots, `true`, `false` or `null`, a decimal numeral with at most one dot, or a quoted string |
| `StatusRuleLanguage.WordHasValue` | nodejs/services/scheduler.js:138-156 | a path leads through own properties alone, a numeral is its digits over a power of ten, a string has its escapes undone |
| `StatusRuleLanguage.BlankIff` | nodejs/services/scheduler.js:194 | white space is the 25 characters that `\s` matches |
| `ResourceGraph.RollUp.Visit` | nodejs/models/resource.js:125-151 | one recursive call on any cache and visited set: a result that is not truncated is exact, a truncated one still accounts for all it saw, and only exact results are cached |
| `ResourceGraph.RollUp.Get` | nodejs/models/resource.js:116-186 | a top-level walk returns the best rank over all existing rows reachable downward, and names a reachable row that has it, on any graph and any sound cache |
| `ResourceGraph.RollUp.GetAll` | nodejs/models/resource.js:188-207 | the same for every row in turn, one cache being shared |
| `ResourceGraph.View.CoveredBounds` | nodejs/models/resource.js:116-186 | why a truncated top-level walk is exact: what it covered is closed under existing children |
| `BubblingWalk.Bubbler.Visit` | nodejs/models/resource.js:93-114 | one call of a walk without the flag: never invents anything, and accounts for what it left out |
| `BubblingWalk.Bubbler.Get` | nodejs/models/resource.js:93-114 | from any settled cache, in any order of requests: sound always, complete when no two rows are below each other |
| `BubblingWalk.Bubbler.AskBoth` | nodejs/models/resource.js:93-114 | of two rows below each other, the one asked for second misses what only the first carries |
| `BubblingWalk.AcyclicHasNoTwoCycle` | nodejs/models/resource.js:93-114 | acyclic graphs meet the completeness condition |
| `GraphViews.GetGraph` | nodejs/models/resource.js:73-207 | environment, status and the status culprit exact for every row on every graph; tags never invented, and exactly the union below when no two rows are below each other |
| `GraphAnswer.EnvironmentIs` | nodejs/models/resource.js:116-151 | the environment shown is `prod` if anything at or below the row is, else `testing`, else `dev`, else none |
| `GraphAnswer.StatusIs` | nodejs/models/resource.js:153-186 | the status shown is the worst at or below the row: critical and error alike, then warning, unknown and ok |
| `GraphAnswer.StatusIsBlamed` | nodejs/models/resource.js:194-202 | it is blamed, by name or else slug, on a row below that has it, and on nobody if that is the row itself |
| `GraphAnswer.TagsAre` | nodejs/models/resource.js:92-114 | the tags shown are tags of rows at or below; all of them where the fold is complete |
| `GraphAnswer.UnderIff` | nodejs/models/resource.js:84-90 | a row is at or below another exactly when a way of edges with both ends, through stored rows, leads to it |
| `GraphViews.BubbledTags` | nodejs/models/resource.js:93-114 | the tag walk alone, with its completeness condition |
| `GraphViews.BubbledEnvironments` | nodejs/services/scheduler.js:361-390 | the scheduler's environment of every row that has rules is the one the graph view shows, when no two rows are below each other |
| `GraphViews.WalksAgree` | nodejs/services/scheduler.js:361-385 | two exact walks, with and without the flag, name the same environment |
| `GraphViews.TwoCycleLosesTag` | nodejs/models/resource.js:92-114 | on any graph with two rows below each other there is a tagging and an order of requests that loses a tag |
| `GraphViews.TwoCycleLosesEnvironment` | nodejs/services/scheduler.js:361-385 | on any graph with two rows below each other there are environments and an order of requests for which the scheduler's walk answers nothing where the graph view shows `dev` |
| `UpwardWalks.SiteIndex.Compute` | nodejs/services/discovery_reconciler.js:117-139 | one recursive call: a cached answer, null ones included, is right, and what was visited without success leads to no site that was not visited |
| `UpwardWalks.SiteIndex.Get` | nodejs/services/discovery_reconciler.js:117-139 | a top-level search is non-null if and only if a site is at or above the row, whatever was asked before; a site is its own |
| `UpwardWalks.SiteIndex.Sweep` | nodejs/services/discovery_reconciler.js:139 | after the opening sweep the index is non-null for exactly the rows with a site at or above them |
| `UpwardWalks.ResolvedAddress` | nodejs/models/resource.js:215-241 | an address is found if and only if the row, or a row above it through existing rows, has one; it is such a row's address: its own (address before IP) if it has one, else the first one's along first parents if that line comes to one |
| `UpwardWalks.FindAncestorSiteSlug` | nodejs/models/resource.js:409-421 | a slug is found if and only if a site with one is above through parents the search goes on to, those before any blank-slugged site; it is that of a site properly above, the first one's along first parents if that line comes to one with a slug; without blank slugs above, one is found if and only if there is a site at all |
| `UpwardWalks.BlankSiteHidesSite` | nodejs/models/resource.js:415-419 | a site with a blank slug, first among the parents, ends the search, though another parent is a site with a slug |
| `AccessInheritance.EffectiveGrants` | nodejs/services/access_inheritance.js:70-102 | terminates on any graph; every row gets the strongest rank granted at or above it, spelled as one of those grants; non-inheriting grants change only the rows they name, to the stronger of the two ranks |
| `AccessInheritance.Scale.EmptyQueueIsBest` | nodejs/services/access_inheritance.js:70-102 | once the queue is empty, the recorded rank is the maximum over all directly granted ancestors |
| `AccessInheritance.PropagationIsLeast` | nodejs/services/access_inheritance.js:70-102 | the result is a fixpoint of handing grants down, and below every other one |
| `AccessInheritance.PropagationIsUnique` | nodejs/services/access_inheritance.js:70-126 | every two propagations of the same grants cover the same rows at the same ranks, whatever the queue order |
| `AccessInheritance.InheritanceSources` | nodejs/services/access_inheritance.js:107-126 | reports exactly the rows that are granted nothing directly and inherit a ranked level, at the propagated level, and names a directly granted row above each |
| `AccessLevels.GrantsFor` | nodejs/routes/discovery.js:42-57 | a caller's two maps are the strongest-merge of the rows of all groups held, roster groups apart |
| `AccessLevels.ByGroup` | nodejs/utils/agent_iam.js:79-84 | per group and resource, the level of the last row; roster groups are kept or left out as the caller has it |
| `AccessLevels.LoginGroups` | nodejs/utils/agent_iam.js:79-94 | lists a group if and only if it is no roster group and its own grants reach the host at login rank or above |
| `LoginAnswer.LoginGroupsAre` | nodejs/utils/agent_iam.js:79-94 | the groups listed for a host are those, `everyone` and `<site>_everyone` aside, of which the last row for some row at or above the host says access, admin or owner |
| `LoginAnswer.RankIs` | nodejs/services/access_inheritance.js:30-34 | the ranks from viewer and member over access and admin to owner, in any case of letters |
| `LoginAnswer.ViewedIs` | nodejs/routes/discovery.js:42-57 | a caller may log in, by the own view, to the hosts at or below a row for which some row of a group held says so, a blank level counting as access |
| `AccessLevels.InheritedAccess` | nodejs/routes/api_directory_admin.js:746-778 | the summary lists a group at a row as inherited, at rank k or more, if and only if it is no roster group, has no row of its own there, and its last-row grants reach the row at rank k |
| `AccessLevels.MergeCommutes` | nodejs/routes/discovery.js:42-57 | the merged grants reach a row at a rank if and only if a single row of some held group does: merging commutes with propagation |
| `AccessLevels.LoginAgreesIff` | nodejs/utils/agent_iam.js:79-94 | caller view and login list agree for every caller, graph and host if and only if no row that lets its group log in is overruled by a later row for the same pair |
| `AccessLevels.WhoMayLogIn` | nodejs/utils/agent_iam.js:79-94 | runs both computations: they agree under that condition when every row names a group and a resource, and each is characterized without it |
| `AccessLevels.TwoRowsDisagree` | nodejs/routes/api_directory_admin.js:753-762 | two rows for one group and resource on which they disagree |
| `AccessProjection.AccessibleResources` | nodejs/services/access_projection.js:46-117 | the two passes return exactly the accessible rows, in list order, over the propagated grants; every row returned is in the catalog |
| `AccessAnswer.AnswerIs` | nodejs/services/access_projection.js:46-117 | which rows are returned, in the fields of the rows and what the caller holds: listed rows that are granted, public or a host opened by a group, and those at the end of a chain of followers, each listed after the row it follows; no others |
| `AccessAnswer.WhatIsNeverReturned` | nodejs/services/access_projection.js:48-66 | nothing unmanaged is returned that is archived or that only sources other than `manual` found; every other row that is granted or public is returned |
| `AccessAnswer.FirstHandIff` | nodejs/services/access_projection.js:56-104 | the first pass admits exactly those rows: a host with an enrolled agent for a member of `god_admin`, of its site's super-admin group, or of an access or admin group of its site or its own |
| `AccessProjection.SiteSlugOf` | nodejs/services/access_projection.js:84-91 | there is an answer if and only if one of the first 32 rows along first parents, the row itself included, is a site; it is the slug of the nearest one |
| `AccessProjection.FirstPass` | nodejs/services/access_projection.js:93-104 | the first pass reaches exactly the catalog rows granted, permitted by group membership, or shown for an enrolled agent |
| `AccessProjection.View.OnlyCatalogRows` | nodejs/services/access_projection.js:48-55 | nothing outside the catalog is ever reachable |
| `AccessProjection.View.AccessIsMonotone` | nodejs/services/access_projection.js:93-114 | more granted rows and more memberships never make a row unreachable |
| `AccessProjection.StrongerGrantsReachMore` | nodejs/services/access_projection.js:56-66 | raising grants or adding some keeps every row that was inherited |
| `AccessProjection.View.OrderMattersIff` | nodejs/services/access_projection.js:106-114 | the answer is independent of the order of the list if and only if no row is reachable only through a row that is itself only inherited |
| `AccessProjection.CallOrderMattersIff` | nodejs/services/access_projection.js:46-117 | two calls that differ in the order of the list alone answer with the same rows, for all orders, if and only if no row is reachable only second hand |
| `AccessProjection.StrongerCallReachesMore` | nodejs/services/access_projection.js:46-117 | a call with stronger or more grants and more memberships answers with no fewer rows |
| `NestedGroups.BuildParentIndex` | nodejs/models/group_ldap.js:160-170 | the index lists, for every member name, exactly the groups that hold it |
| `NestedGroups.ClosureUp` | nodejs/models/group_ldap.js:175-197 | exactly the groups other than the start within the depth cap above it, on any graph |
| `NestedGroups.ClosureDown` | nodejs/models/group_ldap.js:202-228 | exactly the users, and exactly the other groups, within the depth cap below the group |
| `NestedGroups.Dual` | nodejs/models/group_ldap.js:159-228 | the two closures are dual: a user or group is found below `g` if and only if `g` is found above it |
| `NestedGroups.WouldCycle` | nodejs/models/group_ldap.js:285-296 | answers yes if and only if child and parent are the same or the parent is within the cap below the child; an unknown parent gives no |
| `NestedGroups.CycleTestIff` | nodejs/models/group_ldap.js:281-296 | on an acyclic directory the answer is right if and only if the parent, when reachable at all, is reachable within the cap |
| `NestedGroups.BeyondTheCap` | nodejs/models/group_ldap.js:136 | for every cap, an acyclic chain one link longer on which an accepted nesting closes a cycle |
| `ResourceGroups.NestingsStayAcyclicIff` | nodejs/services/resource_groups.js:54-67 | from an acyclic directory, any run of nestings of any groups leaves an acyclic one if and only if the depth cap hid no membership from a cycle test |
| `ResourceGroups.NestingsStayAcyclic` | nodejs/models/group_ldap.js:281-296 | in particular while every chain stays within the cap |
| `ResourceGroups.GroupDirectory.EnsureGroup` | nodejs/services/resource_groups.js:85-95 | creates a missing group with its owner, leaves an existing one alone |
| `ResourceGroups.GroupDirectory.NestGroup` | nodejs/services/resource_groups.js:54-67 | adds a membership unless a group is missing, it is there already, or the cycle test refuses it |
| `ResourceGroups.GroupDirectory.EnsureSiteGroups` | nodejs/services/resource_groups.js:118-158 | performs exactly the site's calls, in order |
| `ResourceGroups.GroupDirectory.ProvisionResourceGroups` | nodejs/services/resource_groups.js:170-186 | performs exactly the resource's calls, in order |
| `ResourceGroups.ProvisioningIsExact` | nodejs/services/resource_groups.js:118-186 | any sequence of provisionings of an un-nested directory, whatever the names, leaves exactly the memberships asked for while both groups existed, and no cycle |
| `GroupLattice.DirectoryAfter` | nodejs/services/resource_groups.js:85-186 | after any provisionings of an un-nested directory, by name: which groups are there, that each new one has the owner of the first request that made it for its only user and no other gained or lost one, and which is nested in which |
| `GroupLattice.RequestAsks` | nodejs/services/resource_groups.js:97-186 | the groups each request makes and the nestings it asks for, spelled out |
| `GroupLattice.AggregateIsAbove` | nodejs/services/resource_groups.js:182-185 | members of a resource's admin group are members of the aggregate's, and not the other way round |
| `GroupLattice.SlugIsWords` | nodejs/utils/groups.js:32-37 | a slug is the runs of letters and digits of a name, in lower case, joined by single dashes |
| `ResourceGroups.RunNestsExactly` | nodejs/services/resource_groups.js:54-67 | the same after every prefix of the run, for any calls that rise in some order of their names |
| `ResourceGroups.SiteOrders` | nodejs/services/resource_groups.js:118-186 | the calls of any provisionings rise in the order of sites by length and of ranks within a site, even where names are shared |
| `ResourceGroups.ShallowIff` | nodejs/services/resource_groups.js:118-186 | chains of groups stay within three links, in every un-nested directory, if and only if no two requests clash: a resource slugged `hosts` or `apps`, and a site named like that resource's site and kind |
| `ResourceGroups.RanksAgreeIff` | nodejs/utils/groups.js:51-77 | roles that share a name share a rank if and only if no two requests clash |
| `ResourceGroups.TowerIsDeep` | nodejs/services/resource_groups.js:118-186 | a run with a chain of four: sites `a` and `a_host`, and a host `hosts` at `a` |
| `ResourceGroups.InterleavedIsExact` | nodejs/routes/api_directory_admin.js:274-292 | the same exactness for the calls of any requests in any order, as when requests are worked on side by side |
| `ResourceGroups.InterleavedIsShallow` | nodejs/routes/api_directory_admin.js:274-292 | and chains of at most three links, unless two requests clash |
| `ResourceGroups.LatticeIsShallow` | nodejs/services/resource_groups.js:118-158 | memberships that rise in an order form no cycle, and no chain longer than the order is high |
| `ResourceGroups.NeverRefused` | nodejs/services/resource_groups.js:54-67 | the cycle test lets every nesting of the lattice through, whatever the cap |
| `ResourceGroups.CapCutsNothing` | nodejs/models/group_ldap.js:136 | being in a group at all and being in it within the cap are the same, for a cap of at least four unless two requests clash, and otherwise for one that grows with the longest site name |
| `ResourceGroups.CapCutsTower` | nodejs/models/group_ldap.js:136 | for every cap, a run of provisionings from an empty directory after which a group is in another, but not within the cap |
| `ResourceGroups.ProvisioningTwice` | nodejs/services/resource_groups.js:85-186 | provisioning a second time changes nothing, whatever the directory looked like |
| `GroupNaming.NameIsSharedIff` | nodejs/utils/groups.js:51-77 | two roles share a name if and only if they are the same, or one is that of a resource slugged `hosts`, `apps` or `super` and the other the aggregate or admin group of the site named like its site and kind |
| `GroupNaming.SlugIsAWord` | nodejs/utils/groups.js:32-37 | a slug never holds the delimiter, has no dash at either end and no two in a row |
| `GroupNaming.SharedNameIsOneRole` | nodejs/utils/groups.js:51-77 | roles that share a name have one canonical role |
| `ResourceMatcher.MacsOf` | nodejs/services/resource_matcher.js:39-50 | exactly the valid MACs of a row's metadata, each once |
| `ResourceMatcher.IpsOf` | nodejs/services/resource_matcher.js:52-66 | exactly the IPs of a row's metadata, each once |
| `ResourceMatcher.Scope.FindExistingMatch` | nodejs/services/resource_matcher.js:117-140 | the four tiers in order compute the match that the next row characterizes |
| `ResourceMatcher.Scope.MatchIff` | nodejs/services/resource_matcher.js:75-140 | a row is the match if and only if it is the first of the strongest tier that has any; names count only for a device without MAC and IP |
| `MatchAnswer.MatchIsFound` | nodejs/services/resource_matcher.js:25-140 | the match is the first row found in the strongest way any is, and each way spelled out: id; a MAC in common, twelve hexadecimal digits; no MAC at the row, the right site and an IP in common; or, for a device without either, no MAC, the right site and a name or slug that agrees |
| `MatchAnswer.DeviceGoes` | nodejs/services/discovery_reconciler.js:156-244 | a device goes into the row so found among the rows of its identity class, within the site of the run, or becomes a row of its own, which the store refuses if its id or slug is taken |
| `DiscoveryMerge.MergeInterfaces` | nodejs/services/discovery_reconciler.js:177-191 | the interface union updates in place the first entry with the same MAC or IP, and appends the rest |
| `DiscoveryMerge.MergeDevice` | nodejs/services/discovery_reconciler.js:142-252 | one device: match among candidates, merge or create, index kept up to date |
| `DiscoveryMerge.MergeDevices` | nodejs/services/discovery_reconciler.js:142-252 | the whole loop is a run of single merges, and stops at the first row the store refuses |
| `DiscoveryMerge.MergedIdentity` | nodejs/services/discovery_reconciler.js:173-196 | merging brings in no MAC that neither side had; a report that at some interface has stored more MACs than its later interfaces can empty leaves an identity in any row, and one that wipes nothing keeps the row's |
| `DiscoveryMerge.TraceKeeps` | nodejs/services/discovery_reconciler.js:142-252 | after every prefix: rows distinct, no stored row lost, every reported device in some row, and every row's MACs, sources and archived state accounted for by a stored row or a device that went there |
| `DiscoveryFacts.TraceTells` | nodejs/services/discovery_reconciler.js:193-244 | after every prefix: a row a device went into was seen now, and is managed if and only if it was or the source promotes; a new row has the source alone, is neither archived nor made by hand, and is what the first device to enter it says; every row is named by the better name each time |
| `DiscoveryFacts.FieldsAreLastReported` | nodejs/services/discovery_reconciler.js:173-198 | after every prefix each metadata field but the interfaces is what the last device to report it said, or as it was stored |
| `DiscoveryFacts.InterfaceIsTaken` | nodejs/services/discovery_reconciler.js:177-191 | one reported interface: the first entry with its MAC, in any case of letters, or its IP takes over what it says, others stay; without one it is added at the end |
| `DiscoveryFacts.TraceKeepsSites` | nodejs/services/discovery_reconciler.js:248-251 | new rows belong to the site of the run from then on, others to the site they had |
| `DiscoveryMerge.TwoDevicesStayApart` | nodejs/services/discovery_reconciler.js:142-252 | two reported devices with MACs and no ids never end in one row, unless a stored row had a MAC of each, for reports of careful devices: those that store more MACs than they empty, or that have none and wipe none they could be merged into |
| `DiscoveryMerge.TwoDevicesShareIff` | nodejs/services/discovery_reconciler.js:142-252 | two-way, for any stored rows and a device that goes into one of them: some second device, with MACs new to all of them, ends in the same row if and only if, of the candidates for some kind of device, the merged row is the first at the site that has a certain IP and no identity |
| `DiscoveryMerge.OpenRowIsShared` | nodejs/services/discovery_reconciler.js:142-252 | for that the merged row has to be at the site, with an IP and no identity left; and that is enough if no other candidate for its kind of device is such a row at its IPs |
| `DiscoveryMerge.StrangerJoinsIff` | nodejs/services/resource_matcher.js:75-140 | in any state of the loop, a device with new MACs and no id goes into a row that is there if and only if a candidate at the site without an identity has one of its IPs |
| `DiscoveryMerge.SomeStrangerEntersIff` | nodejs/services/discovery_reconciler.js:142-252 | in any state of the loop, some device with new MACs and no id goes into this row if and only if it is the first candidate, for some kind of device, at the site with a certain IP and no identity |
| `DiscoveryMerge.SomeStrangerJoinsIff` | nodejs/services/discovery_reconciler.js:142-252 | after a report of any length, some such device goes into a row that is there if and only if some row at the site has an IP and no identity |
| `DiscoveryMerge.SameRowMeansSharedMac` | nodejs/services/resource_matcher.js:70-140 | if two devices went to one row, a stored row shares a MAC with each |
| `DiscoveryMerge.StrongRowIsMetByMac` | nodejs/services/resource_matcher.js:70-111 | a row with a strong identity is only reached by a MAC of its own |
| `DiscoveryMerge.BlankMacLosesIdentity` | nodejs/services/discovery_reconciler.js:142-252 | a run of the merge loop, over any rows of which one is at risk, on which a careless device and a second one with a MAC of its own, told apart and met by no common stored row, end in one row |
| `DiscoveryClasses.ClassKeptIff` | nodejs/services/subtype_templates.js:165-180 | as a device of its class is merged into it, a row keeps its identity class if and only if the device brings no subtype that leaves the class to the kind, or the row's own kind stands for its class |
| `DiscoveryClasses.NewClassIff` | nodejs/services/discovery_reconciler.js:227-243 | a new row has the class of the device it was made from if and only if that names a kind or has a subtype that decides |
| `DiscoveryClasses.ClassIs` | nodejs/services/subtype_templates.js:165-180 | the classes by name: the template's; controllers by subtype or old kind; old kinds as hosts and services; every other kind itself |
| `DiscoveryClasses.CandidatesAre` | nodejs/services/discovery_reconciler.js:157-163 | the candidates are the rows of the device's class and the placeholders, in their order; all rows for a placeholder |
| `DiscoveryClasses.TraceKeepsClasses` | nodejs/services/discovery_reconciler.js:142-252 | after every prefix of a report, every row has the class it was stored with and that of every device that went into it |
| `DiscoveryClasses.ClassesStayApart` | nodejs/services/discovery_reconciler.js:149-163 | whatever addresses and names are reported, no device is folded into a stored row of another class, and no two devices of different classes end in one row; no placeholder rows, and no vague subtype in a class that others have by subtype |
| `DiscoveryClasses.VagueSubtypeMixesClasses` | nodejs/services/subtype_templates.js:165-180 | a run over any row of a class by subtype, on which a device that brings a vague one and a device of another class end in one row |
| `DiscoveryClasses.ControllerTakesServer` | nodejs/services/subtype_templates.js:165-180 | such a row and such devices: a controller stored as a host of subtype `ilo`, reported as a `bmc` of an unknown subtype, and a server at its address |
| `DiscoveryEdges.IsDescendant` | nodejs/services/discovery_reconciler.js:11-22 | decides reachability exactly, and terminates on cyclic stores |
| `DiscoveryEdges.AttachEdge` | nodejs/services/discovery_reconciler.js:279-325 | one reported edge: refused if and only if it is a self-edge or would close a cycle, otherwise attached as the next row says |
| `DiscoveryEdges.AcceptedIsThere` | nodejs/services/discovery_reconciler.js:296-325 | an edge that is not refused is there afterwards, a reparented child has no other site for a parent, nothing else is added, and only edges of that child and relation are lost |
| `EdgeAnswer.AttachedIff` | nodejs/services/discovery_reconciler.js:296-322 | which edges are there after an accepted one: unless its like was there, it takes the place of the first that a source made for its child and relation; edges to the child from other sites go; all others stay |
| `EdgeAnswer.ResolveIs` | nodejs/services/discovery_reconciler.js:260-277 | a slug names the row of the first device reported under it, or, if there is none, the first stored row of that slug |
| `EdgeAnswer.ConfirmedAre` | nodejs/services/discovery_reconciler.js:259-326 | after every prefix of the reported edges exactly the accepted ones are confirmed and their child slugs parented: those between rows their slugs name that close no cycle |
| `EdgeAnswer.SitePhaseIs` | nodejs/services/discovery_reconciler.js:331-349 | the site confirms its edges to exactly the devices that no accepted edge placed, and becomes the parent of exactly those of them that have none |
| `DiscoveryEdges.LinkOneStaysAcyclic` | nodejs/services/discovery_reconciler.js:279-325 | whatever is reported, an acyclic graph stays acyclic |
| `DiscoveryEdges.PostEdge` | nodejs/routes/api_directory_admin.js:597-634 | an edge made by hand is accepted if and only if both rows exist, differ, and no cycle would close |
| `EdgeAnswer.PostedIff` | nodejs/routes/api_directory_admin.js:597-634 | a hand-made edge is accepted if and only if both rows are stored and no way of edges leads from the child to the parent |
| `DiscoveryEdges.RunsStayAcyclic` | nodejs/routes/api_directory_admin.js:597-634 | every run of reported edges, hand-made edges and deletions stays acyclic without self-edges |
| `DiscoveryEdges.ParentToSite` | nodejs/services/discovery_reconciler.js:331-348 | the site phase adopts exactly the reported rows that were not parented, are not the site and have no parent, and confirms the site edge of each loose one |
| `DiscoveryEdges.ParentedAre` | nodejs/services/discovery_reconciler.js:331-348 | the edges afterwards are the old ones and one site edge for each adopted row |
| `DiscoveryEdges.ParentingAcyclicIff` | nodejs/services/discovery_reconciler.js:331-348 | the site phase keeps the graph acyclic if and only if no adopted row was above the site |
| `DiscoveryEdges.ParentingCanCloseACycle` | nodejs/services/discovery_reconciler.js:331-348 | a loose device that the site hangs below is adopted, and closes a cycle |
| `DiscoveryEdges.TopSiteIsSafe` | nodejs/services/discovery_reconciler.js:331-348 | in particular when the site has no parent |
| `DiscoveryEdges.AddStarAcyclic` | nodejs/services/discovery_reconciler.js:331-348 | giving one node several children keeps a graph acyclic if and only if none of them was above it |
| `DiscoveryReconciler.Reconciler.Reconcile` | nodejs/services/discovery_reconciler.js:142-394 | a run takes the store through the merge, edge, site and retirement phases, on which the lemmas below rest; a refused row leaves edges and links alone |
| `DiscoveryReconciler.EdgeTraceKeeps` | nodejs/services/discovery_reconciler.js:260-329 | after every prefix of the edge loop: edges told apart and not dangling, new ones confirmed and of this source, a stored one that is gone superseded by a confirmed one, an acyclic graph still acyclic |
| `DiscoveryReconciler.SourceRowsAreReported` | nodejs/services/discovery_reconciler.js:364-394 | after a run with devices and edges, a row lists the source if and only if it was reported, and every reported row is there |
| `DiscoveryReconciler.OnlyVanishedRowsGo` | nodejs/services/discovery_reconciler.js:364-394 | a row that disappears listed this source alone, was not reported, was not made by hand and is no site |
| `DiscoveryOutcome.VanishedIff` | nodejs/services/discovery_reconciler.js:359-394 | a stored row disappears if and only if it was found by this source alone, nobody vouched for it, and a report with devices and edges does not have it |
| `DiscoveryOutcome.WhatBecomesOfARow` | nodejs/services/discovery_reconciler.js:359-394 | what becomes of every stored row: a reported one is there, listed for the source and seen now; an unreported one that others vouch for loses the source and nothing else; one that nobody does goes with its edges and links, if the report has edges; all others stay as they are |
| `DiscoveryOutcome.SeenIsNotCollected` | nodejs/services/discovery_reconciler.js:490-548 | rows a run reported are left alone by a garbage collection whose cutoffs lie before the run |
| `DiscoveryReconciler.NothingDangles` | nodejs/services/discovery_reconciler.js:142-394 | a run leaves no edge and no group link without its rows, and rows distinct |
| `DiscoveryReconciler.OwnEdgesAreConfirmed` | nodejs/services/discovery_reconciler.js:350-358 | every surviving edge of the source was confirmed by the run |
| `DiscoveryOutcome.EdgesLeft` | nodejs/services/discovery_reconciler.js:351-394 | of the edges after the site phase exactly those are left between rows that are left and, if the report has edges, made by other sources or confirmed |
| `DiscoveryReconciler.DeletedEdgesHaveAReason` | nodejs/services/discovery_reconciler.js:254-394 | a stored edge that is gone was an unconfirmed one of this source, was superseded by a confirmed edge, or lost one of its rows |
| `DiscoveryReconciler.RunStaysAcyclic` | nodejs/services/discovery_reconciler.js:254-394 | the edges a run has after its site phase are acyclic if and only if no row the site adopts was above the site, and the phases after it only remove edges |
| `DiscoveryReconciler.TopSiteRunStaysAcyclic` | nodejs/services/discovery_reconciler.js:254-394 | a whole run keeps an acyclic graph acyclic if the site has no parent at the start and no reported edge resolves to it as a child |
| `DiscoveryReconciler.SiteApartStaysAcyclic` | nodejs/services/discovery_reconciler.js:142-394 | the same under a condition on the stored rows and the payload alone |
| `DiscoveryReconciler.RunWithoutEdgesAcyclicIff` | nodejs/services/discovery_reconciler.js:331-394 | a run that reports no edges keeps an acyclic graph acyclic if and only if no reported row without a parent is above the site |
| `DiscoveryReconciler.RediscoveryKeepsArchived` | nodejs/services/discovery_reconciler.js:219-225 | a row that was archived is still archived after it has been discovered again |
| `DiscoveryReconciler.Reconciler.ForgetSource` | nodejs/services/discovery_reconciler.js:437-488 | sweeps the store by the forgetting rule, then removes the source's edges; an empty source does nothing; the three counts are right, a self-edge of a removed row counting twice |
| `DiscoveryReconciler.Reconciler.GarbageCollect` | nodejs/services/discovery_reconciler.js:490-548 | sweeps the store by the two cutoffs; both counts are right |
| `DiscoveryReconciler.Reconciler.AddEdge` | nodejs/routes/api_directory_admin.js:597-634 | the same store, changed by one hand-made edge |
| `DiscoveryRetention.SweepStore` | nodejs/services/discovery_reconciler.js:364-394 | the loop that updates or removes row by row leaves exactly the rows judged to stay, updated, and exactly the edges and links between them |
| `DiscoveryRetention.WhoRemains` | nodejs/services/discovery_reconciler.js:364-394 | an id is there afterwards if and only if it was there and its row was not judged to leave |
| `DiscoveryRetention.SweepLeavesNothingDangling` | nodejs/services/discovery_reconciler.js:364-548 | no sweep makes an edge or a group link dangle |
| `DiscoveryRetention.ForgettingRows` | nodejs/services/discovery_reconciler.js:437-488 | afterwards no row lists the source, other rows are untouched, and a removed row had no other source and, by default, was neither promoted nor manual |
| `DiscoveryOutcome.ForgottenIs` | nodejs/services/discovery_reconciler.js:437-488 | row by row: one found by the source alone goes, unless promoted or manual rows are kept; one found by others too, or kept, loses the source and nothing else; all others stay |
| `DiscoveryOutcome.TallyIs` | nodejs/services/discovery_reconciler.js:437-548 | the counts are those of the rows updated and of the rows removed |
| `DiscoveryOutcome.ForgottenCounts` | nodejs/services/discovery_reconciler.js:437-488 | forgetting a source counts as kept the rows that only lose it, and as removed those that go |
| `DiscoveryOutcome.CollectedCounts` | nodejs/services/discovery_reconciler.js:490-548 | a garbage collection counts the rows it archives, those archived before aside, and the rows it purges |
| `DiscoveryRetention.ForgettingEdges` | nodejs/services/discovery_reconciler.js:437-488 | the edges and links left are exactly those of other sources between remaining rows |
| `DiscoveryRetention.CollectionIsStrict` | nodejs/services/discovery_reconciler.js:490-548 | a row is purged, archived or untouched strictly by the two cutoffs, and managed, manual and sourceless rows never change |
| `DiscoveryOutcome.Collected` | nodejs/services/discovery_reconciler.js:500-541 | row by row, in its fields: managed, manual, sourceless and never seen rows stay; of the others those older than the cutoffs are purged or archived |
| `SpokeRegistry.SpokeTable.Register` | nodejs/routes/api_site.js:281-326 | the locked section, as the next two rows say: recognizes by endpoint, then by site; else creates with the least free id |
| `SpokeFacts.FoundIsUpdated` | nodejs/routes/api_site.js:281-308 | a registration that finds a row writes that one alone: endpoint and time of contact always, site, reachability and addresses where they were sent and not otherwise, id, ServerID and creation never, a push token only if there was none |
| `SpokeFacts.UnknownIsAdded` | nodejs/routes/api_site.js:309-317 | one that finds none adds a row with what was sent or the defaults and the least ServerID from 2 up that no row has, and fails if and only if all up to 4094 are taken |
| `SpokeRegistry.SpokeTable.Remove` | nodejs/routes/api_site.js:962-974 | exactly the rows with the id are gone, and the others stay in their order |
| `SpokeRegistry.FreeFrom` | nodejs/utils/ldap_replication.js:23-30 | the least free id up to the maximum, or none exactly when all are used |
| `SpokeRegistry.StepKeepsInv` | nodejs/routes/api_site.js:274-326 | every step of every registering process, and every removal between steps, keeps the invariant of lock, pending choice and rows |
| `SpokeRegistry.RunsKeepDistinct` | nodejs/routes/api_site.js:274-326 | every interleaved run keeps endpoints and assigned ServerIDs pairwise distinct and ids at least 2 |
| `SpokeRegistry.RunsKeepIdentities` | nodejs/routes/api_site.js:281-326 | over any run, a row there at both ends has kept its ServerID and any push token it had |
| `SpokeFacts.RunsKeepReachability` | nodejs/routes/api_site.js:292-303 | over any interleaved run, a row there at both ends has in `noInbound`, `meshIp` and `publicHost` what was last sent for it, or what it had |
| `SpokeFacts.RunsKeepContact` | nodejs/routes/api_site.js:292-308 | and likewise endpoint, site and time of contact; the time of creation stays |
| `SpokeFacts.RunsWriteLastSent` | nodejs/routes/api_site.js:274-326 | the same for any field that an update writes exactly when it is sent |
| `SpokeFacts.CreatedIsIntroduced` | nodejs/routes/api_site.js:309-317 | a row that a run adds has, when it comes, what was sent or the defaults |
| `SpokeRegistry.WithoutTheLockIdsCollide` | nodejs/routes/api_site.js:275-280 | two registrations past the lookup at once are given the same id; the invariant excludes that |
| `SpokeRegistry.UndisturbedIsRegistered` | nodejs/routes/api_site.js:281-326 | the steps taken without interruption are the sequential registration |
| `SpokeRegistry.RegisteringAgain` | nodejs/routes/api_site.js:282-317 | registering again from the same endpoint adds no row and keeps id, ServerID and push token; the same request again changes nothing |
| `SpokeRegistry.MovedSpokeIsRecognized` | nodejs/routes/api_site.js:283-291 | a spoke of a known site at a new endpoint is given the first row of the site, with its ServerID and push token, and no other row changes |
| `SpokeRegistry.RegistrationKeepsSitesIff` | nodejs/routes/api_site.js:283-291 | a registration keeps one row per named site if and only if the row found by its endpoint claims no other row's site |
| `SpokeRegistry.SitesCanBeDoubled` | nodejs/routes/api_site.js:283-291 | a registry of two spokes in which a registration leaves two rows for one site |
| `SpokeRegistry.RunsKeepSitesIff` | nodejs/routes/api_site.js:281-326 | every interleaved run that starts with one row per named site has one per site at every moment if and only if no update writes the site of another row |
| `SpokeRegistry.RegisteredHasRow` | nodejs/routes/api_site.js:281-326 | a registration leaves one row at its endpoint, the one it answers with |
| `ServerIdRepair.Repairer.RepairDuplicateServerIds` | nodejs/models/index.js:192-227 | from any rows: ids distinct; the oldest row of each id keeps it, exactly the others move, the older ones to smaller ids, each to a free id of at least 2 below which none is free; nothing else changes |
| `ServerIdRepair.OldestKeeps` | nodejs/models/index.js:207-211 | a row keeps its id if and only if it was created before every other that holds it, or together with it and comes first by its own id |
| `ServerIdRepair.RepairIsIdempotent` | nodejs/models/index.js:192-227 | repairing a second time changes nothing |
| `ServerIdRepair.MovedIsRepaired` | nodejs/models/index.js:207-217 | moving exactly the rows that do not keep their id, one by one, to least unused ids repairs the registry |
| `ServerIdRepair.SortByAge` | nodejs/models/index.js:209-211 | orders a group by creation time, then by id, and keeps its members |
| `ServerIdRepair.LeastUnused` | nodejs/models/index.js:213-214 | the counting loop ends at the least unused id from 2 up |

## Left out

Values and text:

- The comparisons `==`, `!=`, `<`, `<=`, `>`, `>=` of rule values are parameters; numbers are reals, not floats.
- Lower-casing is ASCII; distinguished names are taken as already normalised.
- Site-name and host-label normalisation, the identity classes that templates give to subtypes, the choice of the better
  name, fresh ids, slugs and tokens, and the collation order of ids are parameters.
- Endpoint cleaning and validation before a registration, and splitting and trimming of address lists, come before the
  modelled code.

Walks and access:

- What `buildNodeIAM` sends besides the login groups, and the groups it lists because of their names alone.
- The direct half of the access summary and its member lists: lookups per row, the latter over `NestedGroups.ClosureDown`.
- The catalog's own status walk for a single resource (`nodejs/models/resource.js:300-345`) repeats the status walk.

Groups:

- The rows that link provisioned groups to their resource, and descriptions of groups.
- A failing directory: every create and update succeeds.

Discovery:

- DiscoveryMerge.TwoDevicesStayApart: as a condition on the payload alone it goes one way for reports of several devices;
  `DiscoveryMerge.TwoDevicesShareIff` goes both ways for one device, and `DiscoveryMerge.SomeStrangerEntersIff` and
  `DiscoveryMerge.SomeStrangerJoinsIff` for the state any report leaves.
- DiscoveryClasses.ClassesStayApart: as a condition on the payload it goes one way; `DiscoveryClasses.ClassKeptIff` and
  `DiscoveryClasses.NewClassIff` go both ways for each merge. Placeholder rows take in devices of any class by design.
- DiscoveryReconciler.RunStaysAcyclic: for what a run with reported edges leaves at last, after pruning, acyclicity goes one
  way, because pruning may remove a cycle again; `DiscoveryReconciler.RunWithoutEdgesAcyclicIff` goes both ways.
- DiscoveryReconciler.Reconciler.Reconcile: the target site, and the site of every stored row (which `UpwardWalks.SiteIndex`
  computes), are given; finding or creating the target site and forwarding a report to the master are not modelled.
- Payloads carry no bookkeeping fields of their own (`discovery_sources`, `last_seen`, `lifecycle_state`); fact sources,
  descriptions, timestamps of updates and webhooks are not modelled.
- Edges written through the `hostId` of resource requests, which make no cycle test.

ServerIDs:

- Lock time-outs appear as a process that gives up; several server processes beside each other, whose in-process lock does
  not reach the other, and the database's unique indexes are not modelled.
- What a registration does after the lock: gateway roster, audit and the answer sent back.
- Promotion, demotion and hand-over of the master.

Elsewhere: HTTP routing, authentication, drivers, LDAP, SQL and OpenBao clients, mesh addressing, templates and subtype
tables, e-mail and web sockets have no part in the properties above.
