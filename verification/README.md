# HopWatch: a verified model

HopWatch watches a Meshtastic radio mesh. This project models the parts of it that decide things
(the mesh graph, the login rate limiter, configuration overrides, accounts and access, signed
tokens, the remote-admin scanner, the node configuration form, the traffic chart and the list
tables) and proves what they promise, over every input, every run and every reachable state.

Check everything with `dafny verify dfyconfig.toml --resource-limit 2000000`.

## How it is built

| files | what they model |
|---|---|
| Graphs, HopRings, Declutter, FilteredRings, Between | graph distance by walks; the ring search; the filters and what they do to rings; the shortest-path search and its walk back |
| ForceGrid, Viewport, MeshSim | the repulsion grid; zoom, pan and fit; the mutable simulation object on top of all of them |
| RateLimit | the fixed-window limiter, its unpruned twin, and the history of a key |
| ConfigTree, ConfigOverrides, ConfigArrays, Placeholders | one deep write on values; the environment applied; array indices and lengths; `${NAME}` texts |
| ConfigStore | the same writes in place, through a cursor over shared mutable objects |
| Accounts, Access, ApiTokens | the account table; roles, guards and whole runs of account, role, token and configuration changes with a database that may fail; what a bearer token is worth |
| Base64Url, Tokens, Cookies | RFC 4648 section 5; session cookies and OAuth state tokens; a cookie's text against the guards over whole runs |
| AdminScan, ScanOffers | the probe table over whole histories; which nodes are offered, in which order, and what the worker makes of that |
| NodeConfigForm, NodeSections, NodeChannels | the form and the operations an edit becomes; the fields behind each box; channels, keys, and the node read again |
| Spectrum | aggregation, stacked columns, hover |
| DataTable, ColumnSort | paging and sorting |
| Collections, Decimals | options, finite sums and counting; decimal text |

State that the program updates in place is a class here (`MeshSim.Sim`, `RateLimit.RateLimiter`,
`ConfigStore.Store`, `Accounts.AccountTable`, `Access.Guard`, `AdminScan.ScanStore`,
`DataTable.PagedTable`, `ColumnSort.SortableTable`). Each method is proved against a function of the
old state, and the laws are proved about those functions and their runs.

Numbers are unbounded integers or reals. The clock is a parameter; where a law needs it never to run
backwards it says so. What lies outside the code is a parameter as well: the push between two nodes
(its randomness included), JavaScript's number and text conversions, JSON, the keyed hash, text
collation. A thrown error is a value (`None`, `Thrown`, `Throws`, `DuplicateName`).

## Where the code and its descriptions disagree

The model follows the code.

- Overrides: `README.md:547` and `docs/config.md:5` say every key can be overridden by a variable.
  A key with an underscore or a capital cannot (`ConfigOverrides.Addressable`), `session_secret`
  among them.
- Override order: paths that are not prefixes of one another do not suffice. An array's `length` and
  one of its elements conflict, and `ConfigTree.LengthConflicts` gives the input.
  `ConfigTree.CommuteIffIndependent` is the exact condition. All laws on overrides are stated with it.
- Outage: `src/auth/rbac.ts:106-107` promises that the cookie's role is honoured while the database
  is down. The configuration is read from the database first (`src/db/appsettings.ts:42-46`), outside the
  `try`, so with the database down the guards throw. The cookie counts only when that query answers
  and the account query does not (`Access.WhenTheCookieCounts`).
- Provisioning: numbered names are cut to 60 characters, so with a base of more than 57 the name
  entered can be none of base, base_2, ..., base_50, even one of those being free
  (`Accounts.PicksFirstFreeIff`, `Accounts.CutNameEscapes`); no real Discord id gives such a base
  (`Accounts.RealIdsLeaveRoom`). The name tried last is entered without being looked up, so a login
  can fail on a duplicate name; `Accounts.FailsIffAllTaken` says exactly when.
- New channel: `src/components/NodeConfigEditor.tsx:50-51` says the default slot never clobbers a
  channel. With all seven slots used it is slot 7 (`NodeConfigForm.FirstFreeIndex`).
- New channel key: `src/components/NodeConfigEditor.tsx:86-87` gives a key mode of its own for plaintext.
  A custom key left blank, or the word none in any case, writes plaintext too
  (`NodeChannels.PlainIff`).
- Column sort: `src/components/TableSortEnhancer.tsx:7-8` sorts a column as numbers or as text, but
  decides pair by pair, and a column that has both need have no order
  (`ColumnSort.MixedColumnHasNoOrder`).
- Scanner: the worker skips the station's own node without marking it, so it is offered at every
  tick and takes up a place. `AdminScan.WorkerTicksLeave` says exactly which nodes that leaves unprobed
  after any number of ticks. At limit 1 every node with a higher id is starved for good
  (`AdminScan.EveryoneIsProbedIff`, `AdminScan.StarvationHappens`).
- Verification of a cookie can throw: a signature of the right length with a character of more than
  one byte makes the constant-time comparison throw outside the `try` (`Tokens.WhenVerifyThrows`).
- Rings: on an empty graph ring 0 is empty; on every other graph rings 0 to the deepest are filled.

## Model

| member | source | states |
|---|---|---|
| Graphs.BuildAdjacency | src/components/MeshGraph.tsx:105-107 | The adjacency lists hold exactly the links, both ways round. |
| HopRings.HopDepths | src/components/MeshGraph.tsx:110-116 | The queue loop reaches exactly the nodes some seed is connected to, and gives each its exact distance: the fewest hops over all walks from all seeds. |
| HopRings.MaxDepth | src/components/MeshGraph.tsx:117-118 | The largest depth reached, 0 when nothing was. |
| HopRings.RingIsLeastDistance | src/components/MeshGraph.tsx:103-124 | A ring number is the minimum over the seeds of the distance the path search of the two pickers finds. |
| HopRings.RingsAreFilled | src/components/MeshGraph.tsx:113-124 | Below any reached ring every smaller ring holds a node. |
| HopRings.LinkedRingsAreClose | src/components/MeshGraph.tsx:113-116 | Linked nodes are reached together or not at all, and reached ones differ by at most one ring. |
| HopRings.MostConnected | src/components/MeshGraph.tsx:109 | The fallback root is a node in view that no other node exceeds in links. |
| HopRings.SeedsAre | src/components/MeshGraph.tsx:108-109 | The search starts from all gateways; without any, from the first of the nodes with the most links. |
| HopRings.RingsFromSearch | src/components/MeshGraph.tsx:117-124 | Rings read off the search: seed distance for reached nodes, one ring past the deepest for exactly the unreached ones. |
| MeshSim.Sim.Load | src/components/MeshGraph.tsx:97-101 | After a load the simulation holds the served nodes as new objects and exactly the links both of whose ends are in view. |
| MeshSim.Sim.AssignRings | src/components/MeshGraph.tsx:103-124 | Every node object carries the ring that the declarative graph distance gives its id. |
| MeshSim.Sim.Declutter | src/components/MeshGraph.tsx:565-576 | Hidden are exactly the nodes that are no gateway and beyond a hop limit under 7, or under the link minimum, or MQTT-only where those are to go; the displayed count is the number left visible. |
| Declutter.CountsAddUp | src/components/MeshGraph.tsx:575-576 | Visible nodes and hidden ids always add up to all nodes. |
| Declutter.GatewaysStay | src/components/MeshGraph.tsx:562-574 | No filter setting hides a gateway. |
| Declutter.ChainStays | src/components/MeshGraph.tsx:569-573 | Under the hop limit alone, every node on a shortest chain from a seed to a visible node is visible. |
| Declutter.HopLimitKeepsRings | src/components/MeshGraph.tsx:103-124 | Recomputing rings on the graph left by the hop limit alone gives every visible node, orphans included, its original ring. |
| FilteredRings.DistancesStayIff | src/components/MeshGraph.tsx:103-116 | Whatever is hidden, as long as the seeds stay: every visible reached node keeps its distance if and only if each one outside the core has a visible linked node one ring further in. |
| FilteredRings.RingsStayIff | src/components/MeshGraph.tsx:103-124 | And every visible node keeps its ring, orphans included, if and only if moreover a visible orphan means that the deepest ring is visible somewhere. |
| FilteredRings.SeedsStayIff | src/components/MeshGraph.tsx:108-109 | Under every filter setting the seeds stay if and only if there is a gateway, or the fallback root is not hidden, or the graph is empty. |
| FilteredRings.MqttFilterMovesRings | src/components/MeshGraph.tsx:569-573 | A graph of three nodes on which the MQTT filter moves a visible node from ring 2 to the orphans. |
| FilteredRings.LinkFilterMovesRings | src/components/MeshGraph.tsx:569-573 | A graph of five nodes on which the link minimum does. |
| Between.FindPath | src/components/MeshGraph.tsx:484-489 | The second search ends, reports a hit exactly when B is connected to A, and leaves predecessors that lead one hop closer to A at each step. |
| Between.HitIsDistance | src/components/MeshGraph.tsx:489 | When B comes off the queue its depth is the exact graph distance from A. |
| Between.WalkBack | src/components/MeshGraph.tsx:490-496 | Walking the predecessors never cycles: it yields a real walk from A to B of the reported length, and the highlight is exactly its nodes and their neighbours. |
| Between.ShowBetween | src/components/MeshGraph.tsx:484-500 | "N hop(s)" is the exact distance (0 when A is B), "no path" shows exactly when A and B are disconnected, and then just the two ends are highlighted. |
| MeshSim.Sim.ShowSelection | src/components/MeshGraph.tsx:470-515 | What the pickers leave: nothing selected; one node with its neighbours and the view focused on it; or a shortest path with its neighbours and the view fitted to it. |
| MeshSim.Sim.Neighbourhood | src/components/MeshGraph.tsx:505-507 | The focus highlight is the node and everything linked to it. |
| MeshSim.Sim.BuildGrid | src/components/MeshGraph.tsx:176-181 | Each cell lists exactly the nodes whose position falls in it, in order. |
| ForceGrid.NearIsAround | src/components/MeshGraph.tsx:184-194 | A node within the cutoff always lies in one of the nine cells scanned. |
| ForceGrid.GridScanIsAllPairs | src/components/MeshGraph.tsx:185-200 | The nine-cell scan meets the same nodes as an all-pairs scan with the same cutoff, each exactly once. |
| ForceGrid.AllPairsAre | src/components/MeshGraph.tsx:190-194 | What the all-pairs scan meets: every other node no farther off than 120 once, nothing else. |
| ForceGrid.OneMorePush | src/components/MeshGraph.tsx:183-201 | One more node adds its push, worked out from the way between the two, to that on each node no farther off than 120, and nothing to the others. |
| ForceGrid.AloneFeelsNothing | src/components/MeshGraph.tsx:183-201 | A node with no other around is not pushed. |
| ForceGrid.SumIgnoresOrder | src/components/MeshGraph.tsx:197-198 | Adding up pushes does not depend on the order of the scan (exact arithmetic). |
| MeshSim.Sim.ForceOn | src/components/MeshGraph.tsx:183-201 | The push on a node is the sum over all nodes within the cutoff, as if all pairs had been scanned. |
| MeshSim.Sim.RepulsionPass | src/components/MeshGraph.tsx:182-211 | No position changes during the pass, so the grid stays valid, and every new velocity is the one an all-pairs pass gives. |
| MeshSim.Sim.SpringPass | src/components/MeshGraph.tsx:212-219 | Every velocity changes by the sum of the pulls of the links on that node, none for the dragged node; no position changes; with nothing dragged the sum of all velocities stays. |
| MeshSim.MomentumStays | src/components/MeshGraph.tsx:212-219 | Velocities that changed by the pulls of undragged springs have the sum they had. |
| MeshSim.SpringsConserveMomentum | src/components/MeshGraph.tsx:212-219 | With nothing dragged the pulls of the springs on all nodes cancel out. |
| MeshSim.Sim.Step | src/components/MeshGraph.tsx:172-228 | A whole step is a simultaneous update: places and speeds follow from the positions before the step and all-pairs forces; a speed within 30 either way stands, a higher one becomes 30, a lower one -30; below alpha 0.02 nothing moves, from there on alpha loses a hundredth. |
| MeshSim.PushedSpeed | src/components/MeshGraph.tsx:202-210 | Before the springs a speed gains the push of the others and the pull of its ring, scaled by alpha, and loses 15 percent. |
| MeshSim.LinkPulls | src/components/MeshGraph.tsx:212-219 | A link pulls one end and gives the other the opposite; the dragged node and all others feel nothing of it. |
| MeshSim.NetPullAdds | src/components/MeshGraph.tsx:212-219 | The pulls of the links on a node add up. |
| MeshSim.Sim.MovePass | src/components/MeshGraph.tsx:220-226 | Every node but the dragged one moves by its speed after that is brought into [-30, 30]: kept if in it, else the nearer end; the dragged one keeps place and speed. |
| MeshSim.Sim.OnWheel | src/components/MeshGraph.tsx:406-415 | A wheel event changes the view as the wheel step does and nothing else. |
| MeshSim.Sim.FitToNodes | src/components/MeshGraph.tsx:456-465 | The view becomes the fit of the listed nodes, unchanged for an empty list. |
| MeshSim.Sim.FocusOn | src/components/MeshGraph.tsx:508-512 | The view centres on the node, zooming in to at least 1.2. |
| Viewport.Run | src/components/MeshGraph.tsx:406-415 | Over every run of wheel, pan, fit, focus and re-centring the zoom stays in [0.1, 6]. |
| Viewport.ScreenWorldRoundTrip | src/components/MeshGraph.tsx:363-367 | Drawing a point and asking which world point lies there are inverse to one another. |
| Viewport.WheelKeepsCursor | src/components/MeshGraph.tsx:410-414 | A wheel step keeps the world point under the cursor, clamped or not. |
| Viewport.WheelBurstKeepsCursor | src/components/MeshGraph.tsx:406-415 | So does any sequence of wheel steps at one cursor position. |
| Viewport.WheelInOut | src/components/MeshGraph.tsx:410-414 | Zooming in and back out restores the view if and only if the ceiling of 6 was not hit. |
| Viewport.FitShowsAll | src/components/MeshGraph.tsx:459-464 | After a fit all fitted nodes are on the canvas if and only if the floor of 0.1 did not cut it off or their extent fits the canvas at that zoom. |
| Viewport.UnflooredFitShowsAll | src/components/MeshGraph.tsx:461-464 | A fit not cut off by the 0.1 floor shows every fitted node. |
| Viewport.FitFills | src/components/MeshGraph.tsx:461-463 | How large a fit is: the zoom is in [0.1, 6], and a zoom above 0.1 is no larger than the fit exactly when at it the nodes take up at most 75 percent of the canvas either way, 35 percent for one or two nodes. |
| Viewport.FitCentres | src/components/MeshGraph.tsx:464 | After a fit the middle of the nodes is drawn in the middle of the canvas. |
| Viewport.FocusLands | src/components/MeshGraph.tsx:508-512 | The focused node is drawn in the middle of the canvas, at a zoom of at least 1.2. |
| Viewport.WheelZooms | src/components/MeshGraph.tsx:409-413 | A wheel step multiplies or divides the zoom by 1.1, kept within [0.1, 6]. |
| Viewport.PanMoves | src/components/MeshGraph.tsx:392-393 | A pan moves everything drawn by the same way. |
| Viewport.ScreenScales | src/components/MeshGraph.tsx:236-237 | The origin is drawn at the pan and ways are drawn zoomed. |
| RateLimit.RateLimiter.RateLimit | src/auth/ratelimit.ts:6-16 | The call counts in its key's open window or opens a new one and is answered accordingly; another key's entry goes exactly when there are more than 5000 and it has expired, and is never changed. |
| RateLimit.RateLimiter.DeleteExpired | src/auth/ratelimit.ts:14 | The loop deletes exactly the expired entries. |
| RateLimit.ResetStartsOver | src/auth/ratelimit.ts:18-20 | After a reset the key is answered as if it had never called before, and every other key as if there had been no reset, in every history. |
| RateLimit.PruningIsInvisible | src/auth/ratelimit.ts:14 | Under a clock that never runs backwards, every history of calls and resets is answered as by a limiter that never deletes. |
| RateLimit.KeysAreIndependent | src/auth/ratelimit.ts:6-20 | A key's answers are those it would get with the limiter to itself. |
| RateLimit.FirstOfWindowAdmitted | src/auth/ratelimit.ts:8-15 | A call is let through exactly when it is among the first max of the window its key has opened. |
| RateLimit.AdmittedInAnyHistory | src/auth/ratelimit.ts:6-16 | The same in every history, with other keys in between and entries pruned. |
| RateLimit.SlidingBound | src/auth/ratelimit.ts:6-16 | In every history, other keys and pruning included, the limiter lets at most 2 * max - 1 calls of a key through in any half-open interval of the window's length. |
| RateLimit.SlidingBoundIsTight | src/auth/ratelimit.ts:8-15 | For windows of 2 ms or more the limiter lets exactly that many calls of a burst through, so no smaller bound holds. |
| RateLimit.RetryAfterIsExact | src/auth/ratelimit.ts:15 | A refused caller that returns a whole number of seconds later finds a new window if and only if that is at least the reported number. |
| ConfigTree.ReadBack | src/config/load.ts:99-107 | A written path reads back the value written; an array's length reads back as the number it became. |
| ConfigTree.FrameOfSet | src/config/load.ts:99-107 | A path independent of the written one reads the same before and after. |
| ConfigTree.SetsCommute | src/config/load.ts:99-107 | Writes along independent paths give the same tree, or the same failure, in either order. |
| ConfigTree.LengthShowsAfterwards | src/config/load.ts:99-107 | Whether a write set an array's length can be told from the resulting tree. |
| ConfigTree.LengthConflicts | src/config/load.ts:99-107 | Paths that are not prefixes of one another can still conflict: one sets an array's length, the other an element. |
| ConfigTree.CommuteIffIndependent | src/config/load.ts:99-107 | Two writes commute on all trees and values if and only if neither path is a prefix of the other and they do not meet at an array's length and element. |
| ConfigArrays.IndicesArePrinted | src/config/load.ts:84-86 | The elements of an array are addressed by the decimal texts of 0 to 2^32 - 2 and by no other key. |
| ConfigArrays.ElementGrows | src/config/load.ts:84-107 | Writing the element of any such index below an array of length n succeeds and leaves the length at the larger of n and the index plus one. |
| ConfigArrays.ArrayAfterWrite | src/config/load.ts:99-107 | What any write at or below a key does to an array's length: element, `length`, or neither. |
| ConfigArrays.ShrinkingDeletes | src/config/load.ts:106 | Setting the length deletes exactly the elements from there on. |
| ConfigArrays.LengthTaken | src/config/load.ts:106 | A number is taken for a length exactly when it is whole and from 0 to 2^32 - 1. |
| ConfigArrays.ThrowsIff | src/config/load.ts:99-107 | A write throws exactly when there is no object to write to, or its path runs through an array's length, or ends there with no length to set. |
| ConfigArrays.WriteBelow | src/config/load.ts:99-107 | Below a place that holds an object or array, a write is the write there. |
| ConfigArrays.OverridesGrowArrays | src/config/load.ts:84-97 | Overrides inside an array, at its elements or deeper, leave it as long as it was or as the farthest element they reach needs, in whatever order they come. |
| ConfigArrays.BrokerVariable | src/config/load.ts:85-86 | HOPWATCH_INGEST_BROKERS_0_HOST addresses ingest, brokers, 0, host. |
| ConfigOverrides.SplitUndoesJoin | src/config/load.ts:93 | Splitting recovers a path from its variable name when every key is lower-case without underscore. |
| ConfigOverrides.Addressable | src/config/load.ts:90-93 | A path can be overridden if and only if all its keys are lower-case and without underscore. |
| ConfigOverrides.OverrideIff | src/config/load.ts:91-92 | Every variable with the prefix is an override but the two that mean something else. |
| ConfigOverrides.MoveToEnd | src/config/load.ts:90-95 | With independent paths any variable can be taken to have been applied last. |
| ConfigOverrides.OrderIsIrrelevant | src/config/load.ts:88-97 | With independent paths every enumeration of the environment builds the same tree, or fails alike. |
| ConfigOverrides.OverridesReadBack | src/config/load.ts:88-97 | Each override reads back its coerced value, wherever in the enumeration it came; only a path to the length of what is an array in the result reads the number it became. |
| ConfigOverrides.UntouchedPathKeeps | src/config/load.ts:88-97 | A path independent of all overrides keeps its base value. |
| ConfigStore.Store.SetDeep | src/config/load.ts:99-107 | The cursor walk over mutable objects leaves at the root exactly the tree of the write on values, array lengths included, fails exactly when that fails, and touches no object outside the tree. |
| ConfigStore.Store.Step | src/config/load.ts:102-106 | One step of the walk enters the object under the key, or puts a new one there, without changing what the rest of the write will make. |
| ConfigStore.PlugHolds | src/config/load.ts:99-107 | In an unshared tree, rewriting one subtree in place rewrites the whole tree there and nowhere else. |
| ConfigStore.Frame | src/config/load.ts:88-107 | A tree reads the same in every store that agrees on the objects it occupies. |
| ConfigStore.Store.StructuredClone | src/config/load.ts:89 | The copy is the same tree made of new objects only. |
| ConfigStore.Store.ApplyEnvOverrides | src/config/load.ts:88-97 | The loop builds the tree of the overrides out of new objects and leaves the base, and every other object, as it was. |
| Placeholders.MatchLength | src/config/load.ts:72 | A placeholder starts a text exactly when the text begins with a braced name. |
| Placeholders.ParseWritesBack | src/config/load.ts:72 | Every text is written by a template of plain texts and names. |
| Placeholders.ResolveFillsTemplate | src/config/load.ts:71-73 | Resolving a text fills in its template: each placeholder once, values never scanned again, missing variables empty. |
| Placeholders.PlaceholderGivesValue | src/config/load.ts:72 | A placeholder of capitals, digits and underscores gives the variable's value, nothing if it is not set, and the text after it is resolved as if it stood alone. |
| Placeholders.GetResolved | src/config/load.ts:70-82 | Looking up a path and resolving commute: keys, indices and lengths stay. |
| Accounts.AccountTable.LinkDiscord | src/auth/users.ts:81-86 | Succeeds exactly when no other account has the id, then sets only that row; otherwise changes nothing. |
| Accounts.AccountTable.UnlinkDiscord | src/auth/users.ts:115-117 | Clears the link of that account only; ids stay unique. |
| Accounts.AccountTable.FindUserByDiscordId | src/auth/users.ts:72-78 | Finds an account with the id if there is one. |
| Accounts.AccountTable.EnsureAdminSeed | src/auth/users.ts:9-25 | Seeds enter an empty table only, blanks skipped, the first of a repeated name kept. |
| Accounts.AccountTable.ProvisionDiscordUser | src/auth/users.ts:93-113 | Returns the linked account untouched, or enters a new one under the name tried last, or fails on a duplicate; ids stay unique. |
| Accounts.RunKeepsUnique | src/auth/users.ts:46-117 | Over every run no Discord id belongs to two accounts. |
| Accounts.RowAfter | src/auth/users.ts:9-117 | What each event does to each row, field by field: an upsert keeps the link, a re-role the password and the link, link and unlink the rest; no event touches another row. |
| Accounts.ProvisionIsIdempotent | src/auth/users.ts:93-97 | Until the account is deleted, unlinked or relinked, the same id gets the same account and nothing is written. |
| Accounts.FirstFreeTry | src/auth/users.ts:102-107 | The try taken is free and all tries before it are taken; none of the fifty is free if it runs out. |
| Accounts.PicksFirstFreeIff | src/auth/users.ts:101-107 | The first free name of base, base_2, ..., base_50 is picked on every table if and only if the base has at most 57 characters. |
| Accounts.FailsIffAllTaken | src/auth/users.ts:101-111 | Provisioning fails if and only if nobody has the id and all 51 names that could be entered, the last never looked up, are taken. |
| Accounts.CutNameEscapes | src/auth/users.ts:106 | With a base of 58 characters and nine names taken, it succeeds under a cut name that is none of the numbered ones. |
| Accounts.RealIdsLeaveRoom | src/auth/users.ts:101 | Ids of up to 20 digits give a base of at most 48 characters, whatever the Discord name. |
| Accounts.SanitizeDrops | src/auth/users.ts:101 | Letters, digits, underscore, dot and hyphen of a Discord name are kept in order, every other character is dropped. |
| Accounts.BaseNameIs | src/auth/users.ts:101 | The base is what is kept of the Discord name, of `discord_` and the id if it is empty, cut to 48; and that fallback if nothing is kept. |
| Accounts.UsableNameIsTaken | src/auth/users.ts:93-113 | A free Discord name that needs no change is the new account's name, with the member role, the link and no usable password. |
| Access.HistoryDecidesRole | src/auth/users.ts:9-113 | After every run the stored role is the one that the history of upserts, re-roles, deletions, seeds and provisionings decides. |
| Access.StoredRoleDecides | src/auth/rbac.ts:44-85 | After every run in which the database answers, all five guards answer a session by the role its user has by history, under the current configuration; the cookie's role does not enter, and a session without an account is answered as none. |
| Access.WhenTheCookieCounts | src/auth/rbac.ts:92-119 | For each guard: the cookie's role changes its answer if and only if the configuration is read, the account is not, and two roles differ in what that guard looks at. |
| Access.WhenGuardsThrow | src/auth/rbac.ts:44-85 | For each guard, exactly which outage makes it throw on a session. |
| Access.AdminPassesEverything | src/auth/guard.ts:13-24 | Whoever passes the admin guard passes the transmit guard and every module guard in that state. |
| Access.AdminIsConfigured | src/auth/guard.ts:13-17 | While the database answers, a session passes the admin guard if and only if the role its user has by history leads, through the member and anonymous roles, to a configured one with the admin flag. |
| Access.PageMatchesApi | src/auth/rbac.ts:122-132 | A page grants what the same request without a token is granted on the API, outages included. |
| Access.AppearsIffCreated | src/auth/users.ts:9-67 | An absent name gets an account by an upsert, a seed or a provisioning under it, and by nothing else. |
| Access.DeletionVoidsCookies | src/auth/rbac.ts:44-78 | After a deletion every guard answers a cookie of that name as if there were none, through every run that does not re-create the name. |
| Access.RecreationRevivesCookies | src/auth/rbac.ts:109-113 | Once the name has an account again, all five guards answer every cookie of that name by the new role, through every run that does not touch it again. |
| Access.ReRoleIsImmediate | src/auth/rbac.ts:92-113 | A re-role decides all five guards from the next request on, for every cookie of the user, through every run that does not touch the account again. |
| Cookies.OnlyTheNameCounts | src/auth/rbac.ts:53-85 | While the database answers, any cookie text that verifies gets exactly what the history owes the user it names. |
| Cookies.CookiesOfOneNameAreAlike | src/auth/rbac.ts:92-113 | Two cookie texts of one name that verify cannot be told apart by any guard, whatever roles and expiries they carry. |
| Cookies.AdminByNameIsEnough | src/auth/guard.ts:13-24 | While the database answers, if one cookie of a name passes the admin guard, every verified cookie of that name passes it, the transmit guard and every module guard. |
| Cookies.CookieLife | src/auth/session.ts:20-47 | A cookie signed at login and presented after any run gets what the history owes its user through its expiry second, and what a stranger gets afterwards. |
| Access.Guard.RequireTx | src/auth/guard.ts:22-37 | Names the actor, and stamps the last use of exactly the unrevoked transmitting token that let the request through, no session having done so; no later decision changes by that. |
| ApiTokens.VoidTokenIsNone | src/auth/rbac.ts:64-74 | While the token table answers, an absent or revoked token gets from all five guards what no token gets, whatever the session. |
| ApiTokens.TokenTransmitsIff | src/auth/guard.ts:25-35 | Without a session that may transmit, a bearer does, as "token", if and only if it is in the table, not revoked and flagged. |
| ApiTokens.SessionGoesFirst | src/auth/guard.ts:24 | A session that may transmit does so under its own name, whatever the token. |
| ApiTokens.TokenOnApi | src/auth/rbac.ts:64-73 | On the API an unrevoked token gets its own role, or the role for tokens if it names none, and its transmit flag on top; pages and the admin guard do not look at it. |
| ApiTokens.StrangerGets | src/auth/rbac.ts:75-77 | With neither, the anonymous role if reading is open to all, else nothing. |
| ApiTokens.RevocationIsImmediate | src/auth/guard.ts:25-31 | A revoked or removed token is worth nothing from the next request on, through every run that does not bring it back. |
| ApiTokens.TokenStaysInForce | src/auth/guard.ts:25-35 | An unrevoked token keeps its say through every run that leaves the tokens alone. |
| Base64Url.RoundTrip | src/auth/session.ts:23-36 | Decoding undoes encoding (section 5 of RFC 4648), and encoded text has no dot. |
| Base64Url.Alphabet | src/auth/session.ts:23 | The alphabet: capitals, small letters, digits, hyphen, underscore (RFC 4648, table 2). |
| Base64Url.GroupsAreNumbers | src/auth/session.ts:23 | Three bytes are one number of 24 bits read as four sextets; one or two bytes left over are filled up with zeros. |
| Tokens.OpenUndoesSign | src/auth/session.ts:23-36 | A token opens under its own domain to exactly what was signed. |
| Tokens.OpenedWasSigned | src/auth/session.ts:27-36 | Whatever opens carries a signature made under that domain over that very body. |
| Tokens.SignedTextTells | src/auth/crypto.ts:59-71 | The text under the hash gives away domain and body: no text is signed for two purposes or for two bodies. |
| Tokens.SessionAccepted | src/auth/session.ts:36-43 | Of what is signed as a session exactly an object with a user, a role and a number for an expiry, not past, is accepted. |
| Tokens.StateAccepted | src/auth/oauth.ts:45-50 | Of what is signed as a state everything is accepted but null and what has an expiry that compares as past. |
| Tokens.SessionRoundTrip | src/auth/session.ts:20-47 | A session comes back if and only if it has a user and a role and its expiry second is not past; its age is at least 300 s. |
| Tokens.StateRoundTrip | src/auth/oauth.ts:32-51 | A state token comes back through its expiry second and not after. |
| Tokens.CrossesIffCollision | src/auth/session.ts:23-36 | A token opens under another domain if and only if the signatures of its body under the two domains coincide. |
| Tokens.TokensDoNotCross | src/auth/oauth.ts:27-51 | No state token passes as a session and no session as a state token, as long as the hash tells apart the two texts, never the same, that its body is signed as under the two domains. |
| Tokens.WhenVerifyThrows | src/auth/session.ts:34 | Verification throws on exactly the signatures of the right length that are not plain ASCII. |
| AdminScan.ScanStore.RecordAdminOk | src/db/adminscan.ts:16-30 | Changes one row: counts the success and keeps what it did not report. |
| AdminScan.ScanStore.MarkScanned | src/db/adminscan.ts:33-40 | Changes one row: only the time of the last probe. |
| AdminScan.ForgettingStartsOver | src/db/adminscan.ts:56-58 | In every history a forgotten node is as one never heard of, and every other node as if nothing had been forgotten. |
| AdminScan.RunRecords | src/db/adminscan.ts:16-58 | In every history a row is there exactly when something happened since the node was last forgotten, and says exactly that: count, first, last and latest reported values. |
| AdminScan.RowOrder | src/db/adminscan.ts:16-40 | A success is on record exactly when the count is positive; first <= last <= last probe; the first is the earliest. |
| AdminScan.KnownIsNeverErased | src/db/adminscan.ts:25-27 | A firmware, hardware or role value once reported is never lost to a success without it. |
| AdminScan.FirstOkIsStable | src/db/adminscan.ts:22 | The first success stays the first through every run in which the node is not forgotten. |
| AdminScan.CandidatesAreDue | src/db/adminscan.ts:69-80 | Only active nodes that are due are offered, and all of them when the limit allows. |
| AdminScan.NotOfferedTooSoon | src/db/adminscan.ts:60-76 | A node that never answered is not offered again until more than staleHours after its last probe. |
| AdminScan.AnsweredIsLeftAlone | src/db/adminscan.ts:60-77 | A node that answered is offered again only with re-confirmation on, and then after more than that long. |
| AdminScan.NeverProbedFirst | src/db/adminscan.ts:79-80 | Never-probed active nodes come first, by id, as many as the limit of 1 to 50 allows. |
| ScanOffers.OfferedAre | src/db/adminscan.ts:69-80 | Said of receptions and rows: offered is only what was heard in the last activeHours, is claimed if asked, and is new, or unanswered and not probed in the last staleHours, or up for re-confirmation; below the limit of 1 to 50 all of that is. |
| ScanOffers.SilentIsNotOffered | src/db/adminscan.ts:73 | A node whose every reception is older than activeHours is never offered. |
| ScanOffers.NewNodeIsOffered | src/db/adminscan.ts:69-81 | A node without a row but with a recent reception, claimed if asked, is offered unless such nodes with lower ids use up the limit. |
| ScanOffers.OfferIsTheFirst | src/db/adminscan.ts:79-80 | Whoever is due and left out has a full offer of nodes before it: new ones, then those without a probe time, then the rest, each by id. |
| ScanOffers.OfferOrdered | src/db/adminscan.ts:79 | The offer is in that order, nobody twice. |
| ScanOffers.KeysAreIds | src/db/adminscan.ts:28 | Ids of 32 bits, read as signed or unsigned, keep rows apart. |
| AdminScan.TicksProbe | src/db/adminscan.ts:65-83 | With a fixed active set of N never-probed nodes and limit k, all are probed after ceil(N / k) ticks and not sooner. |
| AdminScan.WorkerTickLeaves | src/worker/adminscan.ts:23-36 | A worker tick probes the never-probed nodes that come first by id, as many as the limit, save the station's own. |
| AdminScan.WorkerTicksLeave | src/worker/adminscan.ts:23-36 | With a fixed active set and limit, exactly which nodes m worker ticks leave unprobed. |
| AdminScan.WorkerProgressIff | src/worker/adminscan.ts:26-36 | While other nodes wait, a worker tick probes one of them if and only if not both: one probe a tick, and the station's own never-probed node first by id. |
| AdminScan.EveryoneIsProbedIff | src/worker/adminscan.ts:26-36 | Given enough ticks all other nodes are probed if and only if two may be probed a tick, or the station's own node is not in line, or it is the last there by id. |
| AdminScan.StarvationHappens | src/worker/adminscan.ts:26-36 | Two nodes heard, the station first, one probe a tick: no number of ticks probes the other. |
| AdminScan.OwnNodeStarvesTheRest | src/worker/adminscan.ts:26-36 | In that state the station's own node is all that is offered and a tick changes nothing. |
| NodeConfigForm.BuildOps | src/components/NodeConfigEditor.tsx:62-93 | The appended list is the operations of the edited sections, then of changed toggles, then of the new channel. |
| NodeConfigForm.FirstFreeIndex | src/components/NodeConfigEditor.tsx:50-53 | The lowest free slot of 1 to 7; a taken one is offered exactly when all seven are taken. |
| NodeConfigForm.Me | src/components/NodeConfigEditor.tsx:34 | The first node with the snapshot's own number. |
| NodeConfigForm.EditReadsBack | src/components/NodeConfigEditor.tsx:36-93 | Writing an edit and reading the node again shows the edited form, password blank, if and only if the number boxes written are canonical and a written owner is listed. |
| NodeChannels.NewChannelIsSent | src/components/NodeConfigEditor.tsx:86-91 | One operation, the last, sets a channel exactly when the form is open with a name; it carries the slot, trimmed name, role and toggles, and "default", "none" or the trimmed text for a key, as chosen. |
| NodeChannels.PlainIff | src/node/writeconfig.ts:76-86 | The new channel is unencrypted if and only if no key was chosen, or the box for a custom one is blank or says none. |
| NodeChannels.NewSlotReadsBack | src/node/writeconfig.ts:314-330 | The new channel's slot reads back that channel and nothing else: role, toggles, at most eleven characters of the name, unencrypted exactly as chosen; nothing if disabled. |
| NodeChannels.OtherSlotsReadBack | src/components/NodeConfigEditor.tsx:80-85 | Every other channel reads back as it was with its toggles as wanted, and no other appears. |
| NodeChannels.AcceptedIff | src/app/api/v1/admin/node/write/route.ts:54-71 | The server refuses an edit if and only if it names a channel outside 0 to 7 or a custom key that is no word for one and not of 1, 16 or 32 bytes. |
| NodeSections.RadioBoxesShow | src/components/NodeConfigEditor.tsx:38-39 | Which reported field each box of the radio section shows, and as what. |
| NodeSections.BrokerBoxesShow | src/components/NodeConfigEditor.tsx:42 | The same for the broker section, whose password box is blank. |
| NodeSections.LoraWrites | src/components/NodeConfigEditor.tsx:66-70 | A radio write names exactly seven fields; whether the preset is in use is not one of them. |
| NodeConfigForm.EmptyIffUnedited | src/components/NodeConfigEditor.tsx:62-93 | The list is empty if and only if nothing was edited. |
| NodeConfigForm.OnlyEditsAreSent | src/components/NodeConfigEditor.tsx:62-93 | Unedited sections and channels are never mentioned, and an MQTT operation carries a password exactly when one was typed. |
| NodeConfigForm.PasswordIsSentIff | src/components/NodeConfigEditor.tsx:74-79 | A password is sent if and only if one was typed, and then that one. |
| Spectrum.Aggregate | src/components/SpectrumChart.tsx:33-43 | Distinct buckets, each cell its last row's counts, each port its sums over all rows. |
| Spectrum.PortsConserve | src/components/SpectrumChart.tsx:40-43 | Port totals add up to the rows on each side. |
| Spectrum.BucketsConserve | src/components/SpectrumChart.tsx:37-39 | Bucket totals fall short of the rows by exactly what later rows of a repeated pair overwrote. |
| Spectrum.TotalsAgree | src/components/SpectrumChart.tsx:33-43 | With one row per bucket and port, summing by rows, by ports or by buckets agrees. |
| Spectrum.ColumnIsBucket | src/components/SpectrumChart.tsx:48-53 | A column's one-sided sum is its bucket's share of the rows. |
| Spectrum.MaxHalf | src/components/SpectrumChart.tsx:48-53 | At least 1, at least every one-sided column sum, and equal to one of them unless 1. |
| Spectrum.HeightIsShare | src/components/SpectrumChart.tsx:120-121 | Heights are proportional to counts, and the largest one-sided total is 150 high. |
| Spectrum.DrawColumn | src/components/SpectrumChart.tsx:115-122 | Each stack draws exactly the ports with a positive count, in order, each as high as its own count and all as high as their sum. |
| Spectrum.UpStackLies | src/components/SpectrumChart.tsx:115-121 | Upward segments are contiguous, do not overlap and lie between the centre and the top. |
| Spectrum.DownStackLies | src/components/SpectrumChart.tsx:115-121 | The same downwards. |
| Spectrum.ColumnStaysWithin | src/components/SpectrumChart.tsx:55-121 | No column reaches further than the half height from the centre line. |
| Spectrum.DrawChart | src/components/SpectrumChart.tsx:33-124 | From rows to bars: one bar a bucket, all to the scale of the largest one-sided bucket sum, each segment as high as its count and inside the chart, direct above the centre line and relayed below, without gaps or overlaps. |
| Spectrum.HoverIsColumn | src/components/SpectrumChart.tsx:62-68 | The hover index is always a column, and the one under the cursor over the chart. |
| DataTable.PagesPartition | src/components/TableToolsEnhancer.tsx:64-73 | The pages are the matching rows in order, cut into fifties, none but an only page empty. |
| DataTable.FilterFinds | src/components/TableToolsEnhancer.tsx:66-67 | The filter keeps exactly the rows with the query somewhere in their text, all for an empty one. |
| DataTable.PagedTable.Apply | src/components/TableToolsEnhancer.tsx:64-82 | Puts the page in range and displays exactly that page's rows, with counts and buttons to match. |
| DataTable.PagedTable.OnInput | src/components/TableToolsEnhancer.tsx:84 | A new query starts at the first page. |
| DataTable.PagedTable.OnPrev | src/components/TableToolsEnhancer.tsx:85 | One page back, never before the first. |
| DataTable.PagedTable.OnNext | src/components/TableToolsEnhancer.tsx:86 | One page on, never past the last. |
| DataTable.PagedTable.OnMutation | src/components/TableToolsEnhancer.tsx:87-89 | Replaced or reordered rows are shown from the first page under the same query. |
| DataTable.PagedTable.ClickThrough | src/components/TableToolsEnhancer.tsx:68-86 | From the first page, pageCount - 1 clicks on Next reach the last page and no fewer do. |
| ColumnSort.SortKeepsRows | src/components/TableSortEnhancer.tsx:43-51 | Whatever the comparison, a sort only reorders. |
| ColumnSort.SortSorts | src/components/TableSortEnhancer.tsx:43-50 | Under a consistent comparison the result is in order and ties keep theirs. |
| ColumnSort.StableSortIsUnique | src/components/TableSortEnhancer.tsx:43-50 | Order and stability leave one possible result, so any stable engine sort gives it. |
| ColumnSort.NumericColumnSorts | src/components/TableSortEnhancer.tsx:39-50 | A column any two of whose cells compare as numbers, by sort key or by text, comes out ascending or descending, ties as they were. |
| ColumnSort.NumericIff | src/components/TableSortEnhancer.tsx:33-47 | A column is such a one exactly when all its cells have a number and all by sort key, or all with a digit. |
| ColumnSort.TextColumnSorts | src/components/TableSortEnhancer.tsx:48-50 | A column of texts comes out in the platform's order of texts or its reverse, ties as they were. |
| ColumnSort.MixedColumnHasNoOrder | src/components/TableSortEnhancer.tsx:43-50 | A column that mixes the two need have no order: three cells each of which comes before the next, and the last before the first. |
| ColumnSort.ThreeClicksAreOne | src/components/TableSortEnhancer.tsx:21-50 | On such a column ascending, descending, ascending is the same as ascending once. |
| ColumnSort.SortKeepsMatches | src/components/TableSortEnhancer.tsx:43-51 | A sort changes neither which rows match a query nor the number of pages. |
| ColumnSort.SortableTable.SortBy | src/components/TableSortEnhancer.tsx:15-52 | A click sorts the data rows in the toggled direction behind the empty-state rows, which stay; fewer than two rows are left alone. |

## Left out

- Rendering, the DOM, canvas, maps, audio, timers, `fetch` and React effects: only the state and arithmetic they drive is modelled.
- The MySQL engine and SQL parsing: each statement is one operation on a table, names compare exactly (no collation), column lengths are not limited, and requests do not interleave.
- Force physics: the push of a pair, the pull of a ring and the pull of a spring are parameters; the random start positions, dragging and reheating events are not modelled. Nothing is said of convergence.
- Floating-point rounding: viewport, grid and chart arithmetic is exact over the reals.
- MeshSim.Sim: the grid is keyed by pairs of integers where the source prints them into a string, and highlights hold node ids where the source holds node objects; ids are unique.
- Declutter.HopLimitKeepsRings: asks that a node on a link counts at least one link, as the server computes it (`src/db/queries.ts:2742-2749`), and is about the hop limit alone, at the default link minimum of 1 and without the MQTT filter; for the other filters see `FilteredRings.RingsStayIff`.
- ConfigOverrides.OverridesReadBack: `coerce` (`src/config/load.ts:109-118`), the conversion of a non-number to an array length, and the lower-casing of characters outside ASCII are parameters or left out.
- ConfigStore.Store.SetDeep: the value written is a freshly made object graph and trees are unshared, as the reading of the file and the coercing of a text make them; getters and prototype setters are not modelled.
- Placeholders.GetResolved: YAML arrays are taken to have no properties but their elements.
- Reading files, YAML, the Zod schema and `validateAlertRules`: large but not deep.
- Accounts: password hashing and checking, preferences, creation times and row numbers.
- Tokens.SessionRoundTrip: JSON, UTF-8 and the keyed hash are parameters: the payload at hand is taken to survive JSON, the hash to be hexadecimal text, and, where domains must not cross, not to collide on that one body (`Tokens.HypothesesCanBeMet`); a character outside the basic plane counts as one.
- `publicOrigin` in `src/auth/oauth.ts`, the bearer-header parsing and the module table: easy members.
- AdminScan.TicksProbe: is about the plan in which every candidate of a tick is marked; what the worker does is `AdminScan.WorkerTicksLeave`. `listRemoteAdmin`, the transmit backlog and the switches that keep the worker from running are not modelled.
- NodeConfigForm.EditReadsBack: the form is grouped by section, and the node is taken to report back what was written, as `Overlay` says; how the server encodes a write and the order in which a node lists its channels are not modelled.
- Spectrum.DrawColumn: colours and the order of ports by volume; any order of distinct ports is covered.
- ColumnSort.SortSorts: for columns that mix numbers and text only the permutation is claimed (`ColumnSort.MixedColumnHasNoOrder` says why); finding the number in a cell's text is a parameter.
- Packet decoding, the worker pipeline, the transmit outbox, the bridge, roll-ups, position estimation and the live map.
