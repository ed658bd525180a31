/** The contract-facing constants of app/src/contracts/rockPaperScissors.js:
    the game-state and move codes, the per-network contract addresses with
    their lookup, and the shape of the contract's ABI. The contract itself
    (its state machine, winner rule, deadlines and payouts) is not part of
    this model; only the interface the client sees is. */
module Contract {
  import opened Wrappers

  // ---------------------------------------------------------------- states

  /** GAME_STATES, in the order a game passes through them. */
  datatype GameState = WaitingForPlayer | CommitPhase | RevealPhase | Finished | TimedOut

  /** The uint8 code the contract reports for a state. */
  function StateCode(s: GameState): (c: nat)
    ensures c < 5
  {
    match s
    case WaitingForPlayer => 0
    case CommitPhase => 1
    case RevealPhase => 2
    case Finished => 3
    case TimedOut => 4
  }

  /** The state a reported code stands for; None outside 0..4. */
  function StateFromCode(c: int): (r: Option<GameState>)
    ensures r.Some? <==> 0 <= c < 5
    ensures r.Some? ==> StateCode(r.value) == c
  {
    if c == 0 then Some(WaitingForPlayer)
    else if c == 1 then Some(CommitPhase)
    else if c == 2 then Some(RevealPhase)
    else if c == 3 then Some(Finished)
    else if c == 4 then Some(TimedOut)
    else None
  }

  /** The five states in lifecycle order. */
  const Lifecycle: seq<GameState> := [WaitingForPlayer, CommitPhase, RevealPhase, Finished, TimedOut]

  /** Codes are distinct, decode back to their state, and number the lifecycle 0..4. */
  lemma StateCodes(s: GameState, t: GameState)
    ensures StateFromCode(StateCode(s)) == Some(s)
    ensures StateCode(s) == StateCode(t) ==> s == t
    ensures s in Lifecycle
    ensures forall i :: 0 <= i < |Lifecycle| ==> StateCode(Lifecycle[i]) == i
  {
  }

  // ----------------------------------------------------------------- moves

  /** MOVE_OPTIONS: 0 is the "not revealed yet" sentinel, 1..3 the playable moves. */
  datatype MoveOption = NotRevealedYet | Rock | Paper | Scissors

  function MoveCode(m: MoveOption): (c: nat)
    ensures c < 4
  {
    match m
    case NotRevealedYet => 0
    case Rock => 1
    case Paper => 2
    case Scissors => 3
  }

  function MoveFromCode(c: int): (r: Option<MoveOption>)
    ensures r.Some? <==> 0 <= c < 4
    ensures r.Some? ==> MoveCode(r.value) == c
  {
    if c == 0 then Some(NotRevealedYet)
    else if c == 1 then Some(Rock)
    else if c == 2 then Some(Paper)
    else if c == 3 then Some(Scissors)
    else None
  }

  /** A move a player can commit: anything but the sentinel. */
  predicate Playable(m: MoveOption) {
    m != NotRevealedYet
  }

  /** Move codes are distinct and round-trip; the sentinel is the only zero code,
      and Rock=1, Paper=2, Scissors=3 as the commitment helper documents. */
  lemma MoveCodes(m: MoveOption, n: MoveOption)
    ensures MoveFromCode(MoveCode(m)) == Some(m)
    ensures MoveCode(m) == MoveCode(n) ==> m == n
    ensures Playable(m) <==> MoveCode(m) != 0
    ensures MoveFromCode(1) == Some(Rock) && MoveFromCode(2) == Some(Paper) && MoveFromCode(3) == Some(Scissors)
  {
  }

  // ------------------------------------------------------------- addresses

  type Address = string

  const ZeroAddress: Address := "0x0000000000000000000000000000000000000000"

  /** The deployments CONTRACT_ADDRESSES lists. */
  datatype Deployment = Mainnet | Sepolia | Localhost

  const MainnetChainId: int := 1
  const SepoliaChainId: int := 11155111
  const LocalhostChainId: int := 31337

  /** The shape of an address string: "0x" and forty more characters. */
  predicate IsAddressShaped(s: string) {
    |s| == 42 && s[0] == '0' && s[1] == 'x'
  }

  /** CONTRACT_ADDRESSES: mainnet and sepolia hold the zero placeholder; only
      the localhost deployment has a real address. */
  function ContractAddresses(d: Deployment): (a: Address)
    ensures IsAddressShaped(a)
    ensures a == ZeroAddress <==> d != Localhost
  {
    var localhost := "0x5FbDB2315678afecb367f032d93F642f64180aa3";
    assert |localhost| == 42 && localhost[2] != ZeroAddress[2];
    assert |ZeroAddress| == 42;
    match d
    case Mainnet => "0x0000000000000000000000000000000000000000"
    case Sepolia => "0x0000000000000000000000000000000000000000"
    case Localhost => localhost
  }

  /** `getContractAddress(chainId)`: total; the three known chains map to their
      own entry and every other chain id falls back to the localhost entry. */
  function GetContractAddress(chainId: int): (a: Address)
    ensures chainId == MainnetChainId ==> a == ContractAddresses(Mainnet)
    ensures chainId == SepoliaChainId ==> a == ContractAddresses(Sepolia)
    ensures chainId != MainnetChainId && chainId != SepoliaChainId ==> a == ContractAddresses(Localhost)
    ensures IsAddressShaped(a)
  {
    if chainId == MainnetChainId then ContractAddresses(Mainnet)
    else if chainId == SepoliaChainId then ContractAddresses(Sepolia)
    else if chainId == LocalhostChainId then ContractAddresses(Localhost)
    else ContractAddresses(Localhost)
  }

  /** Mainnet and sepolia resolve to the zero address; every chain id other
      than those two resolves to the one non-zero, localhost deployment. */
  lemma ContractAddressLookup(chainId: int)
    ensures chainId == MainnetChainId || chainId == SepoliaChainId ==> GetContractAddress(chainId) == ZeroAddress
    ensures chainId != MainnetChainId && chainId != SepoliaChainId ==>
      GetContractAddress(chainId) == ContractAddresses(Localhost) != ZeroAddress
  {
  }

  // ------------------------------------------------------------------- ABI

  /** The Solidity types that occur in ROCK_PAPER_SCISSORS_ABI. */
  datatype AbiType = UInt8 | UInt256 | Bytes32 | AddressType | AddressPair | Bool

  datatype Mutability = View | Pure | Payable | NonPayable

  /** The functions ROCK_PAPER_SCISSORS_ABI declares. */
  datatype FunctionName =
    | MinBet | CommitTimeout | RevealTimeout | NextGameId | Games
    | CreateGame | JoinGame | CommitMove | RevealMove | ClaimTimeout | CancelGame
    | GetGameInfo | GetPlayerMove | GenerateCommitment

  /** The name a function entry carries in the ABI. */
  function AbiName(f: FunctionName): string {
    match f
    case MinBet => "MIN_BET"
    case CommitTimeout => "COMMIT_TIMEOUT"
    case RevealTimeout => "REVEAL_TIMEOUT"
    case NextGameId => "nextGameId"
    case Games => "games"
    case CreateGame => "createGame"
    case JoinGame => "joinGame"
    case CommitMove => "commitMove"
    case RevealMove => "revealMove"
    case ClaimTimeout => "claimTimeout"
    case CancelGame => "cancelGame"
    case GetGameInfo => "getGameInfo"
    case GetPlayerMove => "getPlayerMove"
    case GenerateCommitment => "generateCommitment"
  }

  datatype AbiFunction = AbiFunction(inputs: seq<AbiType>, outputs: seq<AbiType>, mutability: Mutability)

  /** The function entries of ROCK_PAPER_SCISSORS_ABI. */
  function AbiFunctionOf(f: FunctionName): AbiFunction {
    match f
    case MinBet => AbiFunction([], [UInt256], View)
    case CommitTimeout => AbiFunction([], [UInt256], View)
    case RevealTimeout => AbiFunction([], [UInt256], View)
    case NextGameId => AbiFunction([], [UInt256], View)
    case Games => AbiFunction([UInt256],
      [AddressPair, UInt256, UInt8, AddressType, UInt256, UInt256, UInt256, UInt8, UInt8, UInt8], View)
    case CreateGame => AbiFunction([], [UInt256], Payable)
    case JoinGame => AbiFunction([UInt256], [], Payable)
    case CommitMove => AbiFunction([UInt256, Bytes32], [], NonPayable)
    case RevealMove => AbiFunction([UInt256, UInt8, Bytes32], [], NonPayable)
    case ClaimTimeout => AbiFunction([UInt256], [], NonPayable)
    case CancelGame => AbiFunction([UInt256], [], NonPayable)
    case GetGameInfo => AbiFunction([UInt256], [AddressPair, UInt256, UInt8, AddressType, UInt256, UInt256], View)
    case GetPlayerMove => AbiFunction([UInt256, AddressType], [Bool, UInt8], View)
    case GenerateCommitment => AbiFunction([UInt8, Bytes32, AddressType], [Bytes32], Pure)
  }

  /** The write functions are the six the hook sends, and only createGame and
      joinGame accept ether; of the writes only createGame returns something
      (the new game id). Everything else only reads: the contract's getters
      are views and generateCommitment is pure. */
  lemma AbiWrites(f: FunctionName)
    ensures var e := AbiFunctionOf(f);
      && (e.mutability == Payable <==> f == CreateGame || f == JoinGame)
      && (e.mutability in {Payable, NonPayable} <==>
            f in {CreateGame, JoinGame, CommitMove, RevealMove, ClaimTimeout, CancelGame})
      && (e.mutability in {Payable, NonPayable} ==> e.outputs == if f == CreateGame then [UInt256] else [])
      && (e.mutability == Pure <==> f == GenerateCommitment)
  {
  }

  /** Distinct functions carry distinct ABI names, so naming a function in a
      request selects exactly one entry. */
  lemma AbiNamesDistinct(f: FunctionName, g: FunctionName)
    ensures AbiName(f) == AbiName(g) ==> f == g
  {
  }

  /** The events of ROCK_PAPER_SCISSORS_ABI with their parameter types and indexed flags. */
  datatype EventName = GameCreated | PlayerJoined | MoveCommitted | MoveRevealed | GameFinished | GameTimedOut

  function AbiEventOf(e: EventName): seq<(AbiType, bool)> {
    match e
    case GameCreated => [(UInt256, true), (AddressType, true), (UInt256, false)]
    case PlayerJoined => [(UInt256, true), (AddressType, true)]
    case MoveCommitted => [(UInt256, true), (AddressType, true)]
    case MoveRevealed => [(UInt256, true), (AddressType, true), (UInt8, false)]
    case GameFinished => [(UInt256, true), (AddressType, true), (UInt256, false)]
    case GameTimedOut => [(UInt256, true), (AddressType, true)]
  }

  /** Every event is indexed by the game id and then an address, and any
      further parameter is not indexed. */
  lemma EventsIndexedByGameAndAddress(e: EventName)
    ensures |AbiEventOf(e)| >= 2
    ensures AbiEventOf(e)[0] == (UInt256, true) && AbiEventOf(e)[1] == (AddressType, true)
    ensures forall i :: 2 <= i < |AbiEventOf(e)| ==> !AbiEventOf(e)[i].1
  {
  }

  /** The byte width of a statically sized ABI value when packed end to end;
      the elements of a packed array are each padded to 32 bytes. */
  function PackedWidth(t: AbiType): nat {
    match t
    case UInt8 => 1
    case UInt256 => 32
    case Bytes32 => 32
    case AddressType => 20
    case AddressPair => 64
    case Bool => 1
  }

  function PackedWidths(ts: seq<AbiType>): nat {
    if |ts| == 0 then 0 else PackedWidth(ts[0]) + PackedWidths(ts[1..])
  }
}
