# Rock-Paper-Scissors client: commitment, encoding and request model

This project models the browser client of a two-player, stake-backed
Rock-Paper-Scissors game. The game is played through a commit-reveal contract on
an Ethereum chain. The contract itself (its state machine, winner rule, deadlines
and payouts) is not part of the client's code. The model covers what the client
computes:

- **Commitment** (`app/src/utils/commitment.js`, module `Commitment`). The
  `generateCommitment` preimage is the move bytes, then the secret bytes, then
  the address bytes, with no separator. The model proves its layout, its split
  inverse, its uniqueness when the widths are fixed, and that commitment
  uniqueness reduces to injectivity of the hash.
- **Secret serialiser** (`stringToBytes32`, module `Hex`). The model proves a
  "0x" prefix, two lower-case digits per byte (from `toString(16)` and then
  `padStart(2, '0')`), the length 2 + 2n, and a round trip through a strict
  decoder in both directions. It also shows that, despite the name, nothing is
  padded or truncated to 32 bytes.
- **Contract constants** (`app/src/contracts/rockPaperScissors.js`, module
  `Contract`). This covers the game-state and move codes, the per-chain contract
  address lookup with its localhost fallback, and the ABI's function and event
  entries.
- **The `useGame` hook** (`app/src/hooks/useGame.js`, module `Hook`). This covers:
  - the parsing of the contract's game record;
  - the early-return guards of the six transaction handlers and the requests they
    build;
  - the membership predicates and the display labels;
  - the aggregated loading flag;
  - whether each request fits the contract's ABI.

The foreign calls are viem's `toBytes`, `keccak256`, `parseEther` and
`formatEther`, and the browser's `TextEncoder`. They are fields of
`Platform.Primitives` and are passed to the operations as function values.
`parseEther` throws on a string that is not a plain decimal, such as "1e-3", so it
returns an `Option`, and None stands for the exception: a handler whose
`parseEther` call throws sends nothing. Every property therefore holds whatever
those functions compute. Where a property needs an assumption about one of them,
the lemma states it as a `requires`: fixed encoding widths, or `parseEther`
inverting `formatEther`. No property assumes the hash is injective. Where
uniqueness depends on the hash, the conclusion is stated with a keccak256
collision as the alternative.

JavaScript truthiness is modelled explicitly. A game id or move of `0` is falsy,
and so is an empty secret or bet string. The guards therefore never send a
commit for game 0 or for the "not revealed" move code 0.

The commit path and the reveal path encode the same secret through different
functions. The commit path hashes viem's `toBytes(secret)`. The reveal path sends
the `TextEncoder` bytes, serialised by `stringToBytes32`. `Hook.RevealMatchesCommitIff`
proves that a commitment recomputed from the revealed bytes matches the committed
one when the two encodings agree. When they differ, it matches only through a
keccak256 collision.

The ABI declares revealMove's secret as `bytes32`, which is a 32-byte value.
`Hook.RevealConformsIff` proves that the reveal request fits that type only when
the secret's UTF-8 encoding is exactly 32 bytes. The code does not pad, although
its doc comment says "bytes32". The model follows the code.

## Model

| member | source | states |
|---|---|---|
| Hex.ToString16 | app/src/utils/commitment.js:35 | `n.toString(16)` is the shortest lower-case digit string whose hexadecimal value is n: one digit below 16, no leading zero otherwise |
| Hex.PadStart | app/src/utils/commitment.js:35 | `padStart` yields the requested length, keeps the original as suffix and fills the front with the fill character |
| Hex.ByteHex | app/src/utils/commitment.js:35 | every byte becomes exactly two lower-case digits, high nibble then low nibble |
| Hex.HexEncode | app/src/utils/commitment.js:35 | output starts with "0x", has length 2 + 2n, carries byte i's two digits at positions 2+2i and 3+2i, and uses only lower-case hex digits after the prefix |
| Hex.StringToBytes32 | app/src/utils/commitment.js:32-36 | the result has length 2 + 2·(UTF-8 length) and decodes back to the string's UTF-8 bytes |
| Hex.HexEncodeRoundTrip | app/src/utils/commitment.js:33-35 | decoding the serialisation recovers the original bytes |
| Hex.HexToBytesInverse | app/src/utils/commitment.js:35 | every string the strict decoder accepts is the serialisation of what it decodes to (converse round trip) |
| Hex.NotPaddedTo32 | app/src/utils/commitment.js:27-36 | no padding or truncation to 32 bytes: output is 66 characters exactly for 32-byte input, "0x" for empty input, longer for longer input |
| Hex.DecodePairsSound | app/src/utils/commitment.js:35 | whatever the pair decoder returns is encoded digit-pair by digit-pair in its input |
| Hex.DecodePairsComplete | app/src/utils/commitment.js:35 | the pair decoder accepts every digit-pair encoding and returns the encoded bytes |
| Commitment.GenerateCommitment | app/src/utils/commitment.js:10-25 | the commitment is the keccak256 digest of bytes that, cut at the widths of the move and address encodings, are exactly toBytes(move), toBytes(secret) and toBytes(address), in that order |
| Commitment.Preimage | app/src/utils/commitment.js:12-21 | the preimage is move bytes, then secret bytes, then address bytes, with no separator; its length is the sum of the three lengths |
| Commitment.SplitPreimage | app/src/utils/commitment.js:21 | cutting a preimage at the widths of its move and address parts recovers all three parts |
| Commitment.PreimageOfSplit | app/src/utils/commitment.js:21 | every split, re-concatenated, is the original preimage |
| Commitment.PreimageInjective | app/src/utils/commitment.js:21 | with fixed move and address widths, distinct (move, secret, address) byte triples give distinct preimages |
| Commitment.PreimageAmbiguousWithoutFixedWidths | app/src/utils/commitment.js:21 | without fixed widths the layout is ambiguous: a byte moved between secret and address gives the same preimage |
| Commitment.CommitmentBinding | app/src/utils/commitment.js:10-24 | with fixed move and address widths, equal commitments come from equal move, secret and address encodings, or else the two preimages are a keccak256 collision |
| Commitment.CommitmentDeterministic | app/src/utils/commitment.js:10-24 | the commitment depends on its arguments only through their byte encodings |
| Contract.StateFromCode | app/src/contracts/rockPaperScissors.js:203-209 | a reported state code decodes to a state exactly when it lies in 0..4, and the state's code is that code |
| Contract.StateCodes | app/src/contracts/rockPaperScissors.js:203-209 | the five state codes are distinct, round-trip, and number the lifecycle waiting, commit, reveal, finished, timed out as 0..4 |
| Contract.MoveFromCode | app/src/contracts/rockPaperScissors.js:212-217 | a move code decodes exactly when it lies in 0..3, and the move's code is that code |
| Contract.MoveCodes | app/src/contracts/rockPaperScissors.js:212-217 | move codes are distinct and round-trip, 0 is the only non-playable code, and Rock=1, Paper=2, Scissors=3 |
| Contract.ContractAddresses | app/src/contracts/rockPaperScissors.js:195-199 | every entry is address-shaped, and an entry is the zero address exactly when it is not the localhost one |
| Contract.GetContractAddress | app/src/contracts/rockPaperScissors.js:220-231 | chain 1 gives the mainnet entry, 11155111 the sepolia entry, and every other id, 31337 included, the localhost entry; always an address-shaped string |
| Contract.ContractAddressLookup | app/src/contracts/rockPaperScissors.js:196-231 | mainnet and sepolia lookups yield the zero address; every other chain yields the non-zero localhost address |
| Hook.ParseGameInfo | app/src/hooks/useGame.js:115-123 | parsing keeps players, state, winner and deadlines, and the stored bet is exactly `formatEther` of the wei amount |
| Hook.GameInfoUpdate | app/src/hooks/useGame.js:113-125 | a read with data replaces the record with the parsed one; a read without data keeps the previous record |
| Hook.StaleRecordAfterSwitch | app/src/hooks/useGame.js:113-125 | after switching game id and before the new data arrives, joining and the membership predicates use the previous game's record |
| Hook.HookContractAddress | app/src/hooks/useGame.js:18 | the hook's contract is the localhost deployment |
| Hook.CreateGameRequest | app/src/hooks/useGame.js:139-149 | createGame is sent exactly when connected with a non-empty bet input that `parseEther` accepts, carrying the parsed bet as value and no arguments |
| Hook.JoinGameRequest | app/src/hooks/useGame.js:151-162 | joinGame is sent exactly when connected with a game record whose bet `parseEther` accepts, with the target id as argument and that bet as value |
| Hook.MoveActionAllowed | app/src/hooks/useGame.js:165 | the commit and reveal guard (also at line 179) passes only with a non-null, non-zero game id and a non-null move other than the "not revealed" code 0 |
| Hook.CommitMoveRequest | app/src/hooks/useGame.js:164-176 | commitMove is sent exactly when connected with a non-zero game id, a non-zero move and a non-empty secret, with arguments (gameId, generateCommitment(move, secret, address)) and no value |
| Hook.RevealMoveRequest | app/src/hooks/useGame.js:178-190 | revealMove is sent under the same guard, with (gameId, move, hex string) whose hex decodes to the secret's UTF-8 bytes |
| Hook.ClaimTimeoutRequest | app/src/hooks/useGame.js:192-201 | claimTimeout is sent exactly when connected with a non-zero game id, with that id as sole argument |
| Hook.CancelGameRequest | app/src/hooks/useGame.js:203-212 | cancelGame is sent exactly when connected with a non-zero game id, with that id as sole argument |
| Hook.MoveGuards | app/src/hooks/useGame.js:164-190 | commit and reveal share one guard; game id 0, move code 0, an empty secret or a disconnected wallet send nothing; every playable move is sent otherwise |
| Hook.MoveGuardsIgnoreGame | app/src/hooks/useGame.js:164-190 | the move guards ignore the game record, the bet input and the account address, so a commit goes out whatever the game's state or membership |
| Hook.JoinDepositFromRecord | app/src/hooks/useGame.js:151-162 | the join deposit ignores the bet input and equals the game's recorded bet when parseEther inverts formatEther |
| Hook.RequestsTargetLocalhost | app/src/hooks/useGame.js:139-212 | every request the six handlers build is addressed to the localhost deployment |
| Hook.RevealMatchesCommitIff | app/src/hooks/useGame.js:164-190 | the commitment recomputed from the revealed move and secret bytes equals the committed one when toBytes(secret) equals TextEncoder(secret); otherwise only through a keccak256 collision of the two preimages |
| Contract.AbiWrites | app/src/contracts/rockPaperScissors.js:2-135 | the writes are exactly the six functions the hook sends, only createGame and joinGame are payable, only createGame returns a value, and generateCommitment alone is pure |
| Contract.AbiNamesDistinct | app/src/contracts/rockPaperScissors.js:2-135 | distinct ABI functions carry distinct names |
| Contract.EventsIndexedByGameAndAddress | app/src/contracts/rockPaperScissors.js:136-193 | every event is indexed by the game id and then an address, and any further parameter is not indexed |
| Hook.CreateGameConforms | app/src/contracts/rockPaperScissors.js:49-55 | the createGame request matches its payable, argument-free ABI entry |
| Hook.JoinConformsIff | app/src/contracts/rockPaperScissors.js:56-62 | a joinGame request fits its payable (uint256) entry exactly when the target game id is a uint256 |
| Hook.ClaimTimeoutConformsIff | app/src/contracts/rockPaperScissors.js:84-90 | a claimTimeout request fits its (uint256) entry exactly when the game id is a uint256 |
| Hook.CancelConformsIff | app/src/contracts/rockPaperScissors.js:91-97 | a cancelGame request fits its (uint256) entry exactly when the game id is a uint256 |
| Hook.CommitConformsIff | app/src/contracts/rockPaperScissors.js:63-72 | the commitMove request fits (uint256, bytes32) exactly when the game id is a uint256 and the digest has 32 bytes |
| Hook.RevealArgsConformIff | app/src/contracts/rockPaperScissors.js:73-83 | revealMove arguments fit (uint256, uint8, bytes32) exactly when the id and move are in range and the hex string holds 32 bytes |
| Hook.RevealConformsIff | app/src/contracts/rockPaperScissors.js:73-83 | the reveal request fits the ABI only when the secret's UTF-8 encoding is exactly 32 bytes, since nothing pads it |
| Hook.PreimageMatchesAbiWidthIff | app/src/contracts/rockPaperScissors.js:125-135 | the ABI's generateCommitment takes (uint8, bytes32, address) in the client's order; with a 1-byte move and 20-byte address the client preimage has that packed width iff the secret has 32 bytes |
| Hook.Includes | app/src/hooks/useGame.js:221 | `includes` is true exactly when the address occurs in the players array |
| Hook.IsPlayerInGame | app/src/hooks/useGame.js:219-222 | false without a record or a truthy address; otherwise, for a two-slot record, true exactly when the address is in slot 0 or slot 1 |
| Hook.IsGameCreator | app/src/hooks/useGame.js:224-227 | true exactly when a record and truthy address exist and the address is in slot 0 |
| Hook.CreatorIsPlayer | app/src/hooks/useGame.js:219-227 | the creator is a player; a two-slot player who is not the creator holds slot 1 |
| Hook.GetGameStateText | app/src/hooks/useGame.js:229-244 | a code decoding to a state gets that state's label; any other value gets "Unknown" |
| Hook.StateTextsDistinct | app/src/hooks/useGame.js:229-244 | the five state codes get five distinct labels, none "Unknown" |
| Hook.GetMoveText | app/src/hooks/useGame.js:246-259 | a code decoding to a move gets that move's label; any other value gets "Unknown" |
| Hook.MoveTextsDistinct | app/src/hooks/useGame.js:246-259 | the four move codes get distinct labels, none "Unknown", and 0 reads "Not Revealed" |
| Hook.IsLoading | app/src/hooks/useGame.js:94-110 | loading is true exactly when at least one of the six pending-transaction flags is true |

## Left out

- The game protocol itself: state transitions, the winner rule, commit and reveal deadlines, refunds and payouts. The contract that implements them is not part of this model. Only its ABI shape is visible to the client.
- viem's `toBytes`, `keccak256`, `parseEther` and `formatEther`, and the browser's `TextEncoder`: foreign library and platform calls, given as function parameters (`Platform.Primitives`). In particular the model does not state how viem's `toBytes` treats a secret that looks like hex.
- wagmi reads, writes, receipt waiting and refetching (app/src/hooks/useGame.js:21-91, 214-217): network I/O. Their results are inputs to the model, and a sent transaction is the returned `Request`.
- The one-render delay of `isLoading` and `gameInfo`, which `useEffect` sets after a render: React scheduling. The record kept when a read returns no data is modelled, by `Hook.GameInfoUpdate`.
- The `getPlayerMove` parsing effect (app/src/hooks/useGame.js:128-136): it only copies two fields.
- Hook.ParseGameInfo: does not model `Number()`'s rounding of values above 2^53 for the state and deadlines. Those values are small in practice, and the model keeps them exact.
- Client.gameId: modelled as null or an integer. The game-id input stores `Number(text)` (app/src/components/GameBoard.js:241), which can also be a fraction or NaN. A fraction is truthy, so the guards let it through and only viem's uint256 encoding rejects it. NaN is falsy, so nothing is sent.
- viem's `toBytes` and `keccak256`, `formatEther` and `TextEncoder`: modelled as total. The model does not decide whether viem throws on any value the client passes them.
- Hook.JoinGameRequest: the target game id is modelled as an integer. The hook accepts any JavaScript value, and its one caller passes the current game id.
- Contract.GetContractAddress: states only the shape of the returned address ("0x" and 42 characters). It does not check that every character is a hex digit.
- The React components, styling and wallet configuration: rendering only. Because those actions render only when `isPlayerInGame` holds, the Join button in the waiting-for-player branch can never be shown.
