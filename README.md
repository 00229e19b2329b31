# roshambo-holochain: the commit-reveal game protocol in Dafny

This project models the roshambo zome. In it two agents play rock/paper/scissors,
generalized to any "beats" relation between named components, over a shared,
content-addressed Holochain DHT. A game is a chain of four entries:

- **Offer**: the host names a challenger and a format.
- **Commitment**: the challenger accepts and commits the hash of a secret
  `Reveal{component, nonce}`.
- **Move**: the host plays a component and copies the Commitment's hash.
- **GameResult**: the challenger reveals. The result is a `Win{winner_id, loser_id}`
  or a `Draw{players}`, and it embeds the reveal.

Each entry is checked by a validator that dereferences only its predecessor.
So a valid chain certifies itself: an accepted entry never needs re-validating.

Modules:

- `Records` (records.dfy): the entry types and their hand-written `PartialEq`
  impls. It also holds the `handle_get_*` lookups and `get_author`.
- `Resolver` (resolver.dfy): `resolve_components`, plus a reference "beats"
  relation with its well-formedness predicates. It also holds the integration
  tests' Rock, Paper and Scissors components.
- `Game` (game.dfy): `create_game_result`.
- `Validation` (validation.dfy): the four entry validators. It also proves replay
  determinism, that acceptance survives growth of the store, the chain
  invariants of a valid ledger, and the commit-reveal binding.
- `Protocol` (ledger.dfy): a `Ledger` class that holds the store
  (`map<Address, Entry>`) and the author of each entry. Its methods are
  `handle_new_offer`, `handle_new_commitment`, `handle_new_move` and
  `handle_new_game_result`. Each method builds its record from the predecessor
  and commits it with `CommitEntry`. `CommitEntry` runs the entry's validator
  with the caller as author and then stores the entry at its content address.
- `Prototype` (prototype.dfy): the earlier zome (roshambo/code/src/lib.rs). It has
  a fixed 3×3 table, a hash comparison and a stub.
- `Agreement` (agreement.dfy): on the test components, the generalized resolver
  agrees with the prototype table.

Outside collaborators become parameters:

- `calculate_hash` is the `Ledger.hash` function value.
- Content addressing is `Ledger.addressOf`.
- The nonce is a method argument of `NewCommitment`, which the code does not have (see "## Left out").
- The calling agent, whose identity the runtime puts in the new entry's header,
  is a method argument (`agent`).
- Hash injectivity is a hypothesis only where a binding property needs it:
  `Validation.CollisionFree` (an injective `calculate_hash`) for the current
  zome, and, for the prototype's `u64` hasher, which cannot be injective, only
  that no other choice hashes like the committed one (`Prototype.MatchesHashBindsChoice`).

The model follows the code as written:

- The Offer validator accepts every Offer. It checks no identity.
- The Move and GameResult validators do not check that the component belongs
  to the format. The same holds for host ≠ challenger. `Resolver.ComponentInFormat`
  exists as a separate predicate and no validator uses it.
- The resolver reads only the two components' own `wins_against` / `loses_against`
  lists. The `Format` is never consulted.
- Failed `assert!`s in the Commitment and Move validators panic in the code.
  Here they are rejections tagged `AssertionFailed`. The other failures carry
  the code's own error strings.
- Nothing checks who authors a GameResult (`Protocol.GameResultAuthorNotChecked`).
  The integration test "Wrong game result author" (test/index.js:170-194)
  expects an error, and gets one for another reason: its `host_id_` is `""`
  and is never replaced (only `"correct"` is, test/index.js:229-231), so the
  Commitment is already rejected because the Offer's author is not the named host.

## Model

| member | source | states |
|---|---|---|
| `Records.ComponentEq` | zomes/roshambo/code/src/lib.rs:101-107 | the hand-written equality holds exactly when the two components are structurally equal |
| `Records.RevealEq` | zomes/roshambo/code/src/lib.rs:129-134 | the hand-written equality of reveals is structural equality |
| `Records.GameResultEq` | zomes/roshambo/code/src/lib.rs:153-203 | variant-by-variant comparison coincides with structural equality; a Win never equals a Draw |
| `Records.GetOffer` | zomes/roshambo/code/src/lib.rs:378-383 | returns the Offer stored at the address; fails with "No offer found" exactly when the address is absent, and with a decoding error when another kind of entry is stored there |
| `Records.GetCommitment` | zomes/roshambo/code/src/lib.rs:385-390 | same for Commitments: "No commitment found" exactly when the address is absent, a decoding error for another kind of entry |
| `Records.GetMove` | zomes/roshambo/code/src/lib.rs:392-397 | same for Moves: "No move found" exactly when the address is absent, a decoding error for another kind of entry |
| `Records.GetAuthor` | zomes/roshambo/code/src/lib.rs:497-520 | yields the recorded author of an address, and an error exactly when the address has none |
| `Resolver.ResolveComponents` | zomes/roshambo/code/src/lib.rs:567-581 | returns only "host", "challenger" or "draw"; "draw" exactly when neither component beats the other by either list; a named winner always has a recorded relation over the loser; when each list claims a win over the other, the first check decides: "host" iff the challenger is in the host's `wins_against` |
| `Resolver.ResolveMatchesBeats` | zomes/roshambo/code/src/lib.rs:567-581 | on a consistent pair the verdict is "host" iff the host beats the challenger, and "challenger" iff the reverse |
| `Resolver.ResolveRoleSymmetric` | zomes/roshambo/code/src/lib.rs:567-581 | on a consistent pair, exchanging the seats exchanges the verdict |
| `Resolver.ContradictoryListsFavourHost` | zomes/roshambo/code/src/lib.rs:568-573 | because the checks run in a fixed order, two components that each claim to beat the other both resolve to "host"; symmetry then fails |
| `Resolver.IdenticalComponentsDraw` | zomes/roshambo/code/src/lib.rs:567-581 | a component that does not list its own name draws against itself (Rock vs Rock) |
| `Resolver.DrawIffSameName` | zomes/roshambo/code/src/lib.rs:109-112 | for components of a well-formed, fully populated format, a draw happens iff the names are equal |
| `Resolver.RockPaperScissorsWellFormed` | test/index.js:18-20 | the three test components form a well-formed, fully populated format |
| `Game.BuildGameResult` | zomes/roshambo/code/src/lib.rs:531-565 | the reveal, move address and Move's format are embedded unchanged; Draw iff no relation either way, with players [host, challenger]; a Win names host and challenger as winner and loser in the order the relation says; when both claim a win over the other, the host wins iff the revealed component is in the host's `wins_against`, as the resolver's check order says; the `unimplemented!()` arm is unreachable |
| `Game.CreateGameResult` | zomes/roshambo/code/src/lib.rs:531-537 | succeeds exactly when the Move is found, propagating the lookup's error otherwise, and then yields the record built from that Move |
| `Game.ResultNamesBothPlayers` | zomes/roshambo/code/src/lib.rs:539-561 | every result names exactly the host and the Move's challenger |
| `Game.TestRoundOutcomes` | test/index.js:23-47 | Rock against Rock is a draw, and host Paper against revealed Rock is a Win for the host |
| `Validation.ValidateOffer` | zomes/roshambo/code/src/lib.rs:223-228 | every Offer is accepted |
| `Validation.ValidateCommitment` | zomes/roshambo/code/src/lib.rs:241-256 | accepts iff the Offer exists and has an author, that author is the declared host, the Commitment's author is the Offer's challenger, and the formats agree; an Offer address without an author is rejected with `NoAuthor` (the code's `unwrap` panics), and one with an author but no entry with "No offer found" |
| `Validation.ValidateMove` | zomes/roshambo/code/src/lib.rs:267-287 | accepts iff the Commitment exists and has an author, the Move's author is the Commitment's host, the Commitment's author is the Move's challenger, and hash and format equal the Commitment's; an address without an author is rejected with `NoAuthor`, one with an author but no entry with "No commitment found" |
| `Validation.ValidateGameResult` | zomes/roshambo/code/src/lib.rs:583-601 | accepts iff the Move exists and has an author, the reveal hashes to the Move's hash, the format is the Move's, and the candidate equals the result re-derived with the Move's author as host; a wrong reveal is rejected with the reveal-hash message; an address without an author is rejected with `NoAuthor`, one with an author but no entry with "No move found" |
| `Validation.ReplayDeterminism` | zomes/roshambo/code/src/lib.rs:43-44 | two stores that agree on the referenced predecessor give every entry the same verdict |
| `Validation.AcceptedPredecessorsStored` | zomes/roshambo/code/src/lib.rs:243-246 | an accepted entry's predecessor is stored and has an author |
| `Validation.AcceptanceIsStable` | zomes/roshambo/code/src/lib.rs:43-44 | an accepted entry stays accepted however the store grows |
| `Validation.StoreAcceptedKeepsLedgerValid` | zomes/roshambo/code/src/lib.rs:43-44 | storing an accepted entry at a fresh address keeps every stored entry valid |
| `Validation.GameChain` | zomes/roshambo/code/src/lib.rs:45-49 | in a valid ledger every stored result sits on a complete Offer→Commitment→Move chain with one format, the reveal opening the committed hash, and authors equal to the parties the records name; the result is the re-derived one |
| `Validation.CommitRevealBinding` | zomes/roshambo/code/src/lib.rs:588-590 | with a collision-free hash, a stored result's reveal is the one whose hash the challenger committed |
| `Protocol.BuildCommitment` | zomes/roshambo/code/src/lib.rs:338-347 | the Commitment carries Hash(Reveal{component, nonce}), the caller's own `offer_address` and `host_id`, and the Offer's `format_id` |
| `Protocol.BuildMove` | zomes/roshambo/code/src/lib.rs:357-363 | the Move carries the caller's own `component`, `commitment_address` and `challenger_id`, and the Commitment's `hash` and `format_id` |
| `Protocol.NewCommitmentAcceptedIff` | zomes/roshambo/code/src/lib.rs:335-352 | the built Commitment carries Hash(Reveal{component, nonce}) and the Offer's format, and passes validation iff the Offer's author is the named host and the caller is the Offer's challenger |
| `Protocol.NewMoveAcceptedIff` | zomes/roshambo/code/src/lib.rs:354-368 | the built Move copies the Commitment's hash and format, and passes validation iff the caller is the Commitment's host and the Commitment's author is the named challenger |
| `Protocol.BuildGameResultHostInjective` | zomes/roshambo/code/src/lib.rs:539-561 | results built for two different hosts differ |
| `Protocol.NewGameResultAcceptedIff` | zomes/roshambo/code/src/lib.rs:370-376 | the built result passes validation iff the reveal hashes to the Move's hash and the named host is the Move's author (a wrong host is rejected) |
| `Protocol.WrongRevealRejected` | test/index.js:195-218 | with a collision-free hash, revealing anything but the committed reveal (a wrong nonce) is rejected |
| `Protocol.GameResultAuthorNotChecked` | zomes/roshambo/code/src/lib.rs:298-317 | the GameResult verdict is the same whoever authors it |
| `Protocol.Commit` | zomes/roshambo/code/src/lib.rs:330-331 | a commit the validator rejects leaves the store as it was; an accepted one stores the entry at its content address under the caller, unless the address is taken |
| `Protocol.CommitKeepsStoreValid` | zomes/roshambo/code/src/lib.rs:330-331 | one commit keeps a valid store valid and loses no entry or author |
| `Protocol.ReplayKeepsStoreValid` | zomes/roshambo/code/src/lib.rs:324-376 | any sequence of commits, from any agents in any order, keeps a valid store valid (every entry passes its validator with its own author) and only adds to it |
| `Protocol.ReplayKeepsEntry` | zomes/roshambo/code/src/lib.rs:324-376 | an entry and its author, once stored, survive every later sequence of commits unchanged |
| `Protocol.Ledger.CommitEntry` | zomes/roshambo/code/src/lib.rs:330-331 | changes the store exactly as `Commit` says: validates with the caller as author; a rejection changes nothing and returns the error; otherwise the entry is stored at its content address unless that is taken, nothing stored before changes, and the ledger stays valid |
| `Protocol.Ledger.NewOffer` | zomes/roshambo/code/src/lib.rs:324-333 | never fails; stores Offer{challenger_id, format_id} at its address |
| `Protocol.Ledger.NewCommitment` | zomes/roshambo/code/src/lib.rs:335-352 | fails unchanged with the lookup error when no Offer is found; otherwise succeeds iff the Offer's author is the named host and the caller is its challenger, storing the built Commitment |
| `Protocol.Ledger.NewMove` | zomes/roshambo/code/src/lib.rs:354-368 | fails unchanged when no Commitment is found; otherwise succeeds iff the caller is the Commitment's host and its author is the named challenger, storing a Move with the copied hash and format |
| `Protocol.Ledger.NewGameResult` | zomes/roshambo/code/src/lib.rs:370-376 | fails unchanged when no Move is found; otherwise succeeds iff the reveal opens the Move's hash and the named host is the Move's author, storing the built result |
| `Protocol.SuccessfulRound` | test/index.js:23-47 | on a fresh ledger with injective addressing, and with the commitment's nonce kept by the caller (the code drops it, see "## Left out"), the test's round of four calls succeeds and stores a Win for the host |
| `Prototype.BeatsIsTournament` | roshambo/code/src/lib.rs:184-200 | no move beats itself; of two different moves exactly one beats the other |
| `Prototype.CreateGameResult` | roshambo/code/src/lib.rs:182-202 | player_addresses is [p1, p2]; Draw iff both moves are equal; the player whose move beats the other's is the winner |
| `Prototype.SwapPlayers` | roshambo/code/src/lib.rs:182-202 | swapping the players swaps player_addresses and leaves the round result unchanged |
| `Prototype.CompareMoveChoiceHashes` | roshambo/code/src/lib.rs:174-180 | as written, returns true for every input |
| `Prototype.MoveChoiceMatchesHash` | roshambo/code/src/lib.rs:174-180 | the intended comparison: true iff the stored hash is the hash of the choice |
| `Prototype.CompareAcceptsAnyChoice` | roshambo/code/src/lib.rs:174-180 | the as-written comparison accepts any choice whose hash differs from the given hash (for instance the committed move with another nonce), while the intended one rejects it |
| `Prototype.MatchesHashBindsChoice` | roshambo/code/src/lib.rs:174-180 | when no other choice hashes like the committed one, the intended comparison, given the committed hash, accepts the committed choice and no other |
| `Prototype.ConfirmChoicesAndCreateGameResult` | roshambo/code/src/lib.rs:114-123 | the stub always returns Draw with player_addresses [p1hash_address, p2hash_address] |
| `Prototype.StubDisagreesWithTable` | roshambo/code/src/lib.rs:114-123 | the stub contradicts the table whenever the two moves differ |
| `Agreement.ComponentOf` | test/index.js:18-20 | each prototype move maps to the test component of the same name, a member of the rock/paper/scissors format |
| `Agreement.ResolverAgreesWithPrototype` | roshambo/code/src/lib.rs:184-200 | with player 1 as host, the generalized resolver on the test components names the same winner as the table, and "draw" exactly when the table draws |

## Left out

- Holochain plumbing is not modelled: the `entry!` and `define_zome!` macros, `hdk::debug`, and JSON (de)serialisation. The runtime's `commit_entry` is `Ledger.CommitEntry`. `get_entry` is a map lookup. The header provenance is the author map.
- An entry of another kind stored at the address becomes `WrongEntryType`. Lenient JSON decoding is not modelled. For example, a Move's JSON also decodes as an Offer.
- `get_author` on an address without a header panics on `unwrap` in the code. Here it is the error `NoAuthor`.
- Hashing is an uninterpreted function value. SHA2-256 over the JSON encoding and Rust's `DefaultHasher` are left out, and so are hash collisions of content addresses. When the address is already taken, `CommitEntry` stores nothing and returns the address.
- `generate_nonce` (OS random source) is left out. `handle_new_commitment` (zomes/roshambo/code/src/lib.rs:335-340) generates the nonce, hashes it into the reveal and then drops it; `new_commitment` takes no nonce (lib.rs:439), so the `nonce_` the test passes is ignored. As written, nobody can later reveal the committed reveal, and every GameResult is rejected with "Move hash does not match hash of reveal" unless the nonce is guessed. The model's `nonce` argument of `NewCommitment` assumes the nonce is kept and handed back to the player, which the code does not do.
- `assert!` panics are not modelled as panics. They are rejections.
- `handle_get_game_result` and `handle_get_agent_id` are commented out in the code and are not modelled.
- The prototype's storage wrappers are not modelled: `handle_commit_move_choice_hash`, `handle_commit_game_result`, `handle_get_entry`, and their always-accepting validators.
- Network propagation, gossip and consensus among replicas are left out. The ledger is one shared map.
- The UI client (ui-src/client.js) and the test driver are not modelled. The test driver supplies only the scenarios above.

## Findings

| source | as written | input that shows it | evidently intended | confidence | as-written member | corrected member |
|---|---|---|---|---|---|---|
| roshambo/code/src/lib.rs:176-179 | the arm `hash2 => true` binds a new name `hash2` and matches everything, so the function always returns true; the `_ => false` arm is unreachable | any choice whose hash differs from the committed hash, such as the committed move with another nonce | compare `hash1` with the hash computed from the choice | high (not executed) | `Prototype.CompareAcceptsAnyChoice` | `Prototype.MatchesHashBindsChoice` |
