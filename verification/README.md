# Participant registry and launch logic of a networked VR driving application

This project models two pieces of a Unity multiplayer VR application in Dafny and proves properties about them.

- **`ParticipantOrderMapping`** (module `ParticipantRegistry`) is an in-memory two-way registry. It maps transport client ids (`ulong`) to participant orders, the seats `None`, `A`–`F`. Per order it also stores a spawn type and a join type. It is a class with four `map` fields: `clientToOrder`, `orderToClient`, `orderToSpawnType` and `orderToJoinType`. `AddParticipant` and `RemoveParticipant` update them in place. The lookups are functions that read them. The two snapshots, `GetAllConnectedParticipants` and `GetAllConnectedClients`, are methods.
- **`NetworkCommandLine`** (module `NetworkCommandLine`) covers launch. `GetCommandlineArgs` tokenizes the argument list into a dictionary from lowercased flags to lowercased values. `SetupAndStart` maps the editor flags, or the parsed arguments, to a list of abstract actions: `SetOrder(o)` (the participant-order broadcast), `StartHost`, `StartClient`, `StartServer` and `SetLanguage(name)`.

Two invariants describe the registry:

- `Linked` (the class's `Valid()`) holds in every state the registry can reach. It also admits some states that no call sequence reaches. The client-to-order direction is always inverted by the order-to-client direction. Spawn and join types are stored exactly for the orders some client holds.
- `Lockstep` (the class's `Consistent()`) is the bijection the authors intended. The two directions are mutual inverses, and the three order-keyed maps share one key set.

The gap between the two is `Uncovered`, the class's `Orphans()`. These are orders in `orderToClient` that no client maps back to. If `AddParticipant` is called with an order that is not yet registered and a client id that is already registered, the C# `Dictionary.Add` throws after the order has already been inserted into `orderToClient`. That leaves an orphan behind. Nothing ever removes an orphan. `GetParticipantCount` returns -1 exactly when an orphan exists, so from then on it always returns -1. The model keeps this behaviour of the code and proves it. The thrown exception is modelled as the result `Failure(DuplicateKey)`.

The model keeps these behaviours of the code, even where they look unintended:

- The by-client `GetSpawnType(ulong)` and `GetJoinType(ulong)` have an inverted guard. For a registered client they fail; they do not return that client's entry.
- `GetParticipantCount` returns -1 when the two directions differ in size. It logs an error and the registry carries on.
- The `-language` value is lowercased, like every other argument value.
- `AddParticipant` accepts the order `None`, like any other order.

## Model

| member | source | states |
|---|---|---|
| `ParticipantRegistry.InvertedMapValues` | Assets/Component_Core/Scripts/util/ParticipantOrderMapping.cs:6-7 | when order-to-client inverts client-to-order, client-to-order is injective: it has as many distinct orders as clients, all of them keys of order-to-client |
| `ParticipantRegistry.SizesAgreeIffCovered` | Assets/Component_Core/Scripts/util/ParticipantOrderMapping.cs:151 | under that inversion the two directions have equal size exactly when every key of order-to-client is an order some client holds |
| `ParticipantRegistry.LockstepIsLinked` | Assets/Component_Core/Scripts/util/ParticipantOrderMapping.cs:6-9 | the intended lock-step is a linked state, and in it the registered orders are exactly the orders the clients hold |
| `ParticipantRegistry.LockstepIffNoneUncovered` | Assets/Component_Core/Scripts/util/ParticipantOrderMapping.cs:6-9 | a linked state keeps the lock-step exactly when no order is uncovered |
| `ParticipantRegistry.SizesAgreeIffLockstep` | Assets/Component_Core/Scripts/util/ParticipantOrderMapping.cs:151-155 | in a linked state the size check of the participant count succeeds exactly when the lock-step holds |
| `ParticipantRegistry.RegisterKeepsLinked` | Assets/Component_Core/Scripts/util/ParticipantOrderMapping.cs:31-37 | inserting a fresh order under a fresh client into all four maps keeps the state linked and uncovers nothing |
| `ParticipantRegistry.HalfAddUncoversOrder` | Assets/Component_Core/Scripts/util/ParticipantOrderMapping.cs:32-33 | growing only order-to-client, as the throwing add does, keeps the state linked, uncovers exactly the new order and breaks the lock-step |
| `ParticipantRegistry.UnregisterKeepsLinked` | Assets/Component_Core/Scripts/util/ParticipantOrderMapping.cs:45-50 | removing a client and its order from all four maps keeps the state linked and leaves the uncovered orders as they were |
| `ParticipantRegistry.ParticipantOrderMapping.constructor` | Assets/Component_Core/Scripts/util/ParticipantOrderMapping.cs:17-23 | all four maps start empty; the registry starts in lock-step |
| `ParticipantRegistry.ParticipantOrderMapping.AddParticipant` | Assets/Component_Core/Scripts/util/ParticipantOrderMapping.cs:25-41 | taken order: returns false, nothing changes. Fresh order and fresh client: returns true, inserts into all four maps, and every lookup then finds the new entry. Fresh order and registered client: throws, only order-to-client has grown, one orphan is added, and the count is -1. Lock-step is kept for a fresh client; once it is lost it stays lost |
| `ParticipantRegistry.ParticipantOrderMapping.RemoveParticipant` | Assets/Component_Core/Scripts/util/ParticipantOrderMapping.cs:43-53 | returns whether the client was registered. If it was not, nothing changes. If it was, the client and its order are removed from all four maps and nothing else changes. The orphans, and so lock-step or its absence, stay as they were |
| `ParticipantRegistry.ParticipantOrderMapping.CheckOrder` | Assets/Component_Core/Scripts/util/ParticipantOrderMapping.cs:56-63 | true exactly for keys of order-to-client; under lock-step, exactly for orders some client holds |
| `ParticipantRegistry.ParticipantOrderMapping.CheckClientID` | Assets/Component_Core/Scripts/util/ParticipantOrderMapping.cs:65-72 | true exactly for registered clients, and the order of a registered client is itself registered |
| `ParticipantRegistry.ParticipantOrderMapping.GetOrder` | Assets/Component_Core/Scripts/util/ParticipantOrderMapping.cs:129-143 | a hit gives the client's order; a miss gives `(false, None)`. In every linked state, looking the found order up again gives the client back |
| `ParticipantRegistry.ParticipantOrderMapping.GetClientID` | Assets/Component_Core/Scripts/util/ParticipantOrderMapping.cs:117-127 | a hit gives the order's client; a miss gives `(false, 0)` |
| `ParticipantRegistry.ParticipantOrderMapping.LookupsAreInverse` | Assets/Component_Core/Scripts/util/ParticipantOrderMapping.cs:117-143 | under lock-step, `GetOrder(id) == (true, o)` exactly when `GetClientID(o) == (true, id)` |
| `ParticipantRegistry.ParticipantOrderMapping.GetSpawnType` | Assets/Component_Core/Scripts/util/ParticipantOrderMapping.cs:84-93 | a hit gives the stored spawn type; a miss gives `(false, NONE)`. In a linked state it hits exactly for orders some client holds |
| `ParticipantRegistry.ParticipantOrderMapping.GetJoinType` | Assets/Component_Core/Scripts/util/ParticipantOrderMapping.cs:102-111 | a hit gives the stored join type; a miss gives `(false, SCREEN)`. It hits exactly when the spawn-type lookup of the same order hits, since the guard tests the spawn-type map |
| `ParticipantRegistry.ParticipantOrderMapping.GetSpawnTypeOfClient` | Assets/Component_Core/Scripts/util/ParticipantOrderMapping.cs:74-83 | as written: a registered client gets `(false, NONE)`; an unregistered one gets the lookup of order `None`; it succeeds only for an unregistered client while `None` is registered |
| `ParticipantRegistry.ParticipantOrderMapping.GetJoinTypeOfClient` | Assets/Component_Core/Scripts/util/ParticipantOrderMapping.cs:94-101 | as written: a registered client gets `(false, SCREEN)`; an unregistered one gets the lookup of order `None` |
| `ParticipantRegistry.ParticipantOrderMapping.IntendedSpawnTypeOfClient` | Assets/Component_Core/Scripts/util/ParticipantOrderMapping.cs:74-83 | with the guard corrected: hits exactly for registered clients, giving the spawn type of the client's order; a miss gives `NONE` |
| `ParticipantRegistry.ParticipantOrderMapping.IntendedJoinTypeOfClient` | Assets/Component_Core/Scripts/util/ParticipantOrderMapping.cs:94-101 | with the guard corrected: hits exactly for registered clients, giving the join type of the client's order; a miss gives `SCREEN` |
| `ParticipantRegistry.ParticipantOrderMapping.GetParticipantCount` | Assets/Component_Core/Scripts/util/ParticipantOrderMapping.cs:145-156 | -1 exactly when lock-step is broken; otherwise the number of registrations, equal to the size of each direction and of the spawn-type map |
| `ParticipantRegistry.ParticipantOrderMapping.GetAllConnectedParticipants` | Assets/Component_Core/Scripts/util/ParticipantOrderMapping.cs:158-162 | the snapshot holds exactly the keys of order-to-client, each once |
| `ParticipantRegistry.ParticipantOrderMapping.GetAllConnectedClients` | Assets/Component_Core/Scripts/util/ParticipantOrderMapping.cs:164-168 | the snapshot holds exactly the registered client ids, each once |
| `ParticipantRegistry.KeysToArray` | Assets/Component_Core/Scripts/util/ParticipantOrderMapping.cs:161 | `Keys.ToArray()`: every key of the set once, in some order |
| `ParticipantRegistry.InvertedGuardWitness` | Assets/Component_Core/Scripts/util/ParticipantOrderMapping.cs:74-83 | after `AddParticipant(A, 42, …)`, the as-written by-client lookup of 42 gives `(false, NONE)`; the corrected one gives the stored spawn type |
| `ParticipantRegistry.DuplicateClientScenario` | Assets/Component_Core/Scripts/util/ParticipantOrderMapping.cs:25-53 | adding client 42 under A and then under B throws; the count is then -1 and stays -1 after 42 is removed |
| `NetworkCommandLine.ToLower` | Assets/Scripts/Startup/NetworkCommandLine.cs:104 | each ASCII upper-case letter becomes its lower-case letter (code point plus 32), every other character is kept, the length is unchanged, and an already lower-case string is returned as it is |
| `NetworkCommandLine.ValueAfter` | Assets/Scripts/Startup/NetworkCommandLine.cs:106-107 | a flag has a value exactly when a next token exists and is not a flag; that value is the next token lowercased |
| `NetworkCommandLine.ParseKeys` | Assets/Scripts/Startup/NetworkCommandLine.cs:103-109 | a successful parse has exactly the lowercased flags as keys |
| `NetworkCommandLine.ParseValues` | Assets/Scripts/Startup/NetworkCommandLine.cs:106-109 | in a successful parse each flag maps to the value that follows it |
| `NetworkCommandLine.ParseArgs` | Assets/Scripts/Startup/NetworkCommandLine.cs:103-110 | the whole argument list parses to a failure exactly when a flag is duplicated; otherwise the dictionary's keys are exactly the lowercased flags, each mapped to the value after it |
| `NetworkCommandLine.ParseFailsIffDuplicate` | Assets/Scripts/Startup/NetworkCommandLine.cs:109 | parsing fails exactly when two tokens are the same flag after lowercasing |
| `NetworkCommandLine.FailureIsFinal` | Assets/Scripts/Startup/NetworkCommandLine.cs:109 | once the dictionary insertion has thrown, later tokens do not change the outcome |
| `NetworkCommandLine.GetCommandlineArgs` | Assets/Scripts/Startup/NetworkCommandLine.cs:98-114 | the in-place scan returns the parse of the whole argument list: the dictionary, or the duplicate-flag failure |
| `NetworkCommandLine.ParsedValuesAreLowercase` | Assets/Scripts/Startup/NetworkCommandLine.cs:106 | every parsed value is lower-case, so the upper-case `-po` cases are unreachable |
| `NetworkCommandLine.OrderFromFlag` | Assets/Scripts/Startup/NetworkCommandLine.cs:43-71 | a value selects an order other than `None` only if it is that order's letter, in either case |
| `NetworkCommandLine.OrderFlagRoundTrip` | Assets/Scripts/Startup/NetworkCommandLine.cs:43-71 | each order A–F is selected by its letter; among lower-case values, that letter is the only one that selects it |
| `NetworkCommandLine.StartFromFlag` | Assets/Scripts/Startup/NetworkCommandLine.cs:75-85 | `server`, `host` and `client` each give exactly the matching start action; any other value gives none |
| `NetworkCommandLine.PackagedActions` | Assets/Scripts/Startup/NetworkCommandLine.cs:42-88 | the actions come in the order broadcast, network start, language, each at most once |
| `NetworkCommandLine.PhasesInLaunchOrder` | Assets/Scripts/Startup/NetworkCommandLine.cs:42-88 | at most one action per phase, concatenated phase by phase, is in launch order |
| `NetworkCommandLine.PoFlagSetsOrder` | Assets/Scripts/Startup/NetworkCommandLine.cs:42-72 | an order broadcast occurs exactly when `-po` is present, and carries the order its value selects |
| `NetworkCommandLine.MlapiFlagStarts` | Assets/Scripts/Startup/NetworkCommandLine.cs:74-86 | a start action occurs only for a recognised `-mlapi` value and is the one that value selects; a recognised value always produces it |
| `NetworkCommandLine.LanguageFlagSetsLanguage` | Assets/Scripts/Startup/NetworkCommandLine.cs:88 | the language is set exactly when `-language` is present, to its value |
| `NetworkCommandLine.SetupAndStart` | Assets/Scripts/Startup/NetworkCommandLine.cs:22-89 | the result is always in launch order. Editor runs issue three actions. A packaged run fails exactly when a flag is duplicated |
| `NetworkCommandLine.PackagedRunFollowsArguments` | Assets/Scripts/Startup/NetworkCommandLine.cs:38-88 | a packaged run with no duplicated flag succeeds. It broadcasts an order exactly for a `-po` flag, with the order that flag's value selects. It starts exactly what a `-mlapi` value selects. It sets the language exactly for a `-language` flag, to that flag's value |
| `NetworkCommandLine.EditorIgnoresArguments` | Assets/Scripts/Startup/NetworkCommandLine.cs:23-36 | in the editor the arguments are ignored, and the actions are `SetOrder(A)`, then host or client as configured, then English |
| `NetworkCommandLine.OrderAndHostExample` | Assets/Scripts/Startup/NetworkCommandLine.cs:42-86 | `-po B -mlapi host` gives `[SetOrder(B), StartHost]` |
| `NetworkCommandLine.UnknownOrderExample` | Assets/Scripts/Startup/NetworkCommandLine.cs:68-70 | `-po Z` gives `[SetOrder(None)]` and no start action |
| `NetworkCommandLine.DuplicateFlagExample` | Assets/Scripts/Startup/NetworkCommandLine.cs:109 | `-PO a -po b` fails with a duplicate `-po` |

## Findings

| source | as written | input that shows it | evidently intended | confidence | as-written member | corrected member |
|---|---|---|---|---|---|---|
| Assets/Component_Core/Scripts/util/ParticipantOrderMapping.cs:75 | the guard tests `GetOrder(clientId, out po)` where `!GetOrder(...)` was meant, so it takes the failure branch when the client IS registered | `AddParticipant(A, 42, st, jt)` then `GetSpawnType(42)` gives `(false, NONE)`; see `ParticipantRegistry.InvertedGuardWitness` | `!GetOrder(...)`: fail for an unknown client, otherwise return the spawn type of the client's order | high; not executed | `ParticipantRegistry.ParticipantOrderMapping.GetSpawnTypeOfClient` | `ParticipantRegistry.ParticipantOrderMapping.IntendedSpawnTypeOfClient` |
| Assets/Component_Core/Scripts/util/ParticipantOrderMapping.cs:95 | the same inverted guard in the by-client join-type lookup | `AddParticipant(A, 42, st, jt)` then `GetJoinType(42)` gives `(false, SCREEN)` | fail for an unknown client, otherwise return the join type of the client's order | high; not executed | `ParticipantRegistry.ParticipantOrderMapping.GetJoinTypeOfClient` | `ParticipantRegistry.ParticipantOrderMapping.IntendedJoinTypeOfClient` |

## Left out

- The `initDone` flag: the constructor always sets it, so the `!initDone` disjunct of every guard is always false and is not modelled. The `LogErrorNotInit` calls on lookup misses are dropped with the other `Debug.LogError` calls.
- `Debug.LogError` calls, `Screen.SetResolution`, `FindObjectOfType<LocalVRPlayer>()`, and the `Start`/`Update` lifecycle: these are engine side effects. The broadcast and the language call are emitted as `SetOrder` and `SetLanguage` actions.
- `NetworkManager.StartServer` and the `ConnectionAndSpawing` start and set-order calls belong to collaborators that are not part of this model. They appear only as the actions `StartServer`, `StartHost`, `StartClient` and `SetOrder`.
- `System.Environment.GetCommandLineArgs()` is process input. The argument list is a parameter.
- The implicit conversion from the `-language` string, possibly null, to `LanguageSelect` is not part of this model. `SetLanguage` carries the string, with `None` for null.
- The contents of `SpawnType`, `JoinType` and `ParticipantOrder` are defined elsewhere. Spawn and join types are opaque values with only the sentinels `NONE` and `SCREEN` named.
- Culture-sensitive `ToLower` and `StartsWith`: only ASCII letters are lowercased.
- The order of `Keys.ToArray()` is unspecified. The snapshots are `seq`s, stated by their element set, their length and their distinct elements, and not by order.
- ParticipantRegistry.ParticipantOrderMapping.AddParticipant: the spawn-type and join-type `Dictionary.Add` calls are not modelled as throwing. Under the class invariant `Valid()`, which every state the registry can reach satisfies, their key is never present.
- ParticipantRegistry.ParticipantOrderMapping.GetJoinType: it requires `Valid()`. The guard tests the spawn-type map and then reads the join-type map, which would throw `KeyNotFoundException` in a state where their keys differ. No state the registry can reach has such keys.
