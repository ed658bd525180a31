/** The pure logic of the `useGame` hook (app/src/hooks/useGame.js): parsing of
    the contract's game record, the guards that decide whether a transaction
    is sent and the arguments it carries, the membership predicates, the
    display labels and the aggregated loading flag. The wagmi hooks that read
    the chain, submit transactions and wait for receipts are not modelled:
    their results are the inputs here, and a submitted transaction is the
    `Request` value an action returns. */
module Hook {
  import opened Wrappers
  import opened Platform
  import Contract
  import Hex
  import Commitment

  type Address = Contract.Address

  // ------------------------------------------------------------ hook state

  /** The tuple `getGameInfo` returns: players, bet in wei, state code, winner, deadlines. */
  datatype GameData = GameData(players: seq<Address>, betAmount: int, state: int, winner: Address,
                               commitDeadline: int, revealDeadline: int)

  /** The parsed record the hook keeps as `gameInfo`; the bet is an ether string. */
  datatype GameInfo = GameInfo(players: seq<Address>, betAmount: string, state: int, winner: Address,
                               commitDeadline: int, revealDeadline: int)

  /** The hook's inputs: the wallet (`isConnected`, `address`), the React state
      (`gameId`, `betAmount`, `selectedMove`, `secret`, `gameInfo`). A JavaScript
      `null`/`undefined` is None. */
  datatype Client = Client(
    isConnected: bool,
    address: Option<Address>,
    gameId: Option<int>,
    betAmount: string,
    selectedMove: Option<int>,
    secret: string,
    gameInfo: Option<GameInfo>)

  /** JavaScript truthiness of a number that may be null: null and 0 are falsy. */
  predicate NumberTruthy(n: Option<int>) {
    n.Some? && n.value != 0
  }

  /** JavaScript truthiness of an address that may be undefined: undefined and "" are falsy. */
  predicate AddressTruthy(a: Option<Address>) {
    a.Some? && a.value != ""
  }

  /** The JavaScript value the hook hands to `generateCommitment` as the address. */
  function AddressValue(a: Option<Address>): JsValue {
    if a.Some? then Str(a.value) else Undefined
  }

  /** The record parsed from `gameData`: the bet is formatted as an ether
      string, every other field is kept. */
  function ParseGameInfo(lib: Primitives, data: GameData): (info: GameInfo)
    ensures info.players == data.players && info.state == data.state && info.winner == data.winner
    ensures info.commitDeadline == data.commitDeadline && info.revealDeadline == data.revealDeadline
    ensures info.betAmount == lib.formatEther(data.betAmount)
  {
    GameInfo(data.players, lib.formatEther(data.betAmount), data.state, data.winner,
             data.commitDeadline, data.revealDeadline)
  }

  /** The effect that maintains `gameInfo`: a read that returned a record
      replaces it, and a read with no data (None) leaves the previous record,
      possibly that of another game, in place. */
  function GameInfoUpdate(lib: Primitives, prev: Option<GameInfo>, data: Option<GameData>): (r: Option<GameInfo>)
    ensures data.None? ==> r == prev
    ensures data.Some? ==> (r.Some? && r.value.players == data.value.players
                        && r.value.betAmount == lib.formatEther(data.value.betAmount)
                        && r.value.state == data.value.state && r.value.winner == data.value.winner
                        && r.value.commitDeadline == data.value.commitDeadline
                        && r.value.revealDeadline == data.value.revealDeadline)
  {
    if data.Some? then Some(ParseGameInfo(lib, data.value)) else prev
  }

  // -------------------------------------------------------------- requests

  /** One argument of a contract call. */
  datatype Arg = Num(n: int) | Digest(bytes: Bytes) | HexString(s: string)

  /** A contract write the hook submits: target, function, arguments and attached value. */
  datatype Request = Request(to: Address, fn: Contract.FunctionName, args: seq<Arg>, value: Option<int>)

  /** The hook always talks to `getContractAddress(31337)`. */
  function HookContractAddress(): (a: Address)
    ensures a == Contract.ContractAddresses(Contract.Localhost)
  {
    Contract.GetContractAddress(Contract.LocalhostChainId)
  }

  /** `handleCreateGame`: sends createGame with the user's bet as value. When
      `parseEther` throws on the bet input, nothing is sent. */
  function CreateGameRequest(lib: Primitives, c: Client): (r: Option<Request>)
    ensures r.Some? <==> c.isConnected && c.betAmount != "" && lib.parseEther(c.betAmount).Some?
    ensures r.Some? ==> (r.value.fn == Contract.CreateGame && r.value.args == []
                    && r.value.value == lib.parseEther(c.betAmount))
  {
    if !c.isConnected || c.betAmount == "" then None
    else
      var wei := lib.parseEther(c.betAmount);
      if wei.None? then None
      else Some(Request(HookContractAddress(), Contract.CreateGame, [], Some(wei.value)))
  }

  /** `handleJoinGame(targetGameId)`: sends joinGame with the game's recorded bet
      as value; nothing is sent when `parseEther` throws on that bet. */
  function JoinGameRequest(lib: Primitives, c: Client, targetGameId: int): (r: Option<Request>)
    ensures r.Some? <==> c.isConnected && c.gameInfo.Some? && lib.parseEther(c.gameInfo.value.betAmount).Some?
    ensures r.Some? ==> (r.value.fn == Contract.JoinGame && r.value.args == [Num(targetGameId)]
                    && r.value.value == lib.parseEther(c.gameInfo.value.betAmount))
  {
    if !c.isConnected || c.gameInfo.None? then None
    else
      var wei := lib.parseEther(c.gameInfo.value.betAmount);
      if wei.None? then None
      else Some(Request(HookContractAddress(), Contract.JoinGame, [Num(targetGameId)], Some(wei.value)))
  }

  /** The early return shared by `handleCommitMove` and `handleRevealMove`: a
      null or zero game id, a null move or the "not revealed" code 0 stop it. */
  predicate MoveActionAllowed(c: Client)
    ensures MoveActionAllowed(c) ==> c.gameId.Some? && c.gameId != Some(0) && c.selectedMove.Some?
    ensures MoveActionAllowed(c) ==> c.selectedMove != Some(Contract.MoveCode(Contract.NotRevealedYet))
  {
    c.isConnected && NumberTruthy(c.gameId) && NumberTruthy(c.selectedMove) && c.secret != ""
  }

  /** `handleCommitMove`: sends commitMove(gameId, generateCommitment(move, secret, address)). */
  function CommitMoveRequest(lib: Primitives, c: Client): (r: Option<Request>)
    ensures r.Some? <==> MoveActionAllowed(c)
    ensures r.Some? ==> (r.value.fn == Contract.CommitMove && r.value.value.None?
                    && r.value.args == [Num(c.gameId.value),
                         Digest(Commitment.GenerateCommitment(lib, Number(c.selectedMove.value),
                                                              Str(c.secret), AddressValue(c.address)))])
  {
    if !c.isConnected || !NumberTruthy(c.gameId) || !NumberTruthy(c.selectedMove) || c.secret == "" then None
    else
      var commitment := Commitment.GenerateCommitment(lib, Number(c.selectedMove.value), Str(c.secret),
                                                      AddressValue(c.address));
      Some(Request(HookContractAddress(), Contract.CommitMove, [Num(c.gameId.value), Digest(commitment)], None))
  }

  /** `handleRevealMove`: sends revealMove(gameId, move, stringToBytes32(secret)). */
  function RevealMoveRequest(lib: Primitives, c: Client): (r: Option<Request>)
    ensures r.Some? <==> MoveActionAllowed(c)
    ensures r.Some? ==> (r.value.fn == Contract.RevealMove && r.value.value.None? && |r.value.args| == 3
                    && r.value.args[0] == Num(c.gameId.value) && r.value.args[1] == Num(c.selectedMove.value)
                    && r.value.args[2].HexString?
                    && Hex.HexToBytes(r.value.args[2].s) == Some(lib.textEncode(c.secret)))
  {
    if !c.isConnected || !NumberTruthy(c.gameId) || !NumberTruthy(c.selectedMove) || c.secret == "" then None
    else
      var secretBytes32 := Hex.StringToBytes32(lib.textEncode, c.secret);
      Some(Request(HookContractAddress(), Contract.RevealMove,
                   [Num(c.gameId.value), Num(c.selectedMove.value), HexString(secretBytes32)], None))
  }

  /** `handleClaimTimeout`: sends claimTimeout(gameId). */
  function ClaimTimeoutRequest(c: Client): (r: Option<Request>)
    ensures r.Some? <==> c.isConnected && NumberTruthy(c.gameId)
    ensures r.Some? ==> (r.value.fn == Contract.ClaimTimeout && r.value.args == [Num(c.gameId.value)]
                    && r.value.value.None?)
  {
    if !c.isConnected || !NumberTruthy(c.gameId) then None
    else Some(Request(HookContractAddress(), Contract.ClaimTimeout, [Num(c.gameId.value)], None))
  }

  /** `handleCancelGame`: sends cancelGame(gameId). */
  function CancelGameRequest(c: Client): (r: Option<Request>)
    ensures r.Some? <==> c.isConnected && NumberTruthy(c.gameId)
    ensures r.Some? ==> (r.value.fn == Contract.CancelGame && r.value.args == [Num(c.gameId.value)]
                    && r.value.value.None?)
  {
    if !c.isConnected || !NumberTruthy(c.gameId) then None
    else Some(Request(HookContractAddress(), Contract.CancelGame, [Num(c.gameId.value)], None))
  }

  // ------------------------------------------------- properties of actions

  /** Commit and reveal are sent under exactly the same conditions; game id 0 and
      the "not revealed" code 0 are falsy and never sent, while every playable
      move is sent once the client is connected, has a non-zero game id and a
      non-empty secret. */
  lemma MoveGuards(lib: Primitives, c: Client)
    ensures CommitMoveRequest(lib, c).Some? <==> RevealMoveRequest(lib, c).Some?
    ensures c.gameId == Some(0) ==> CommitMoveRequest(lib, c).None?
    ensures c.selectedMove == Some(Contract.MoveCode(Contract.NotRevealedYet)) ==> CommitMoveRequest(lib, c).None?
    ensures c.secret == "" || !c.isConnected ==> CommitMoveRequest(lib, c).None?
    ensures forall m: Contract.MoveOption ::
      Contract.Playable(m) && c.isConnected && NumberTruthy(c.gameId) && c.secret != "" ==>
        CommitMoveRequest(lib, c.(selectedMove := Some(Contract.MoveCode(m)))).Some?
  {
    forall m: Contract.MoveOption | Contract.Playable(m)
      ensures Contract.MoveCode(m) != 0
    {
      Contract.MoveCodes(m, m);
    }
  }

  /** The move guards consult neither the game record, the bet input nor the
      account address: the commit is sent whatever the game's state and whether
      or not the account is one of its players. */
  lemma MoveGuardsIgnoreGame(lib: Primitives, c: Client, info: Option<GameInfo>, bet: string, a: Option<Address>)
    ensures CommitMoveRequest(lib, c.(gameInfo := info, betAmount := bet, address := a)).Some?
        == CommitMoveRequest(lib, c).Some?
    ensures RevealMoveRequest(lib, c.(gameInfo := info, betAmount := bet, address := a))
        == RevealMoveRequest(lib, c)
  {
  }

  /** The join deposit is the game's recorded bet, not the bet input: changing
      the input changes nothing, and when formatting and parsing ether are
      inverse on the recorded amount the deposit equals it exactly. */
  lemma JoinDepositFromRecord(lib: Primitives, c: Client, data: GameData, bet: string, target: int)
    requires c.isConnected && c.gameInfo == Some(ParseGameInfo(lib, data))
    requires lib.parseEther(lib.formatEther(data.betAmount)) == Some(data.betAmount)
    ensures JoinGameRequest(lib, c.(betAmount := bet), target) == JoinGameRequest(lib, c, target)
    ensures JoinGameRequest(lib, c, target).Some?
    ensures JoinGameRequest(lib, c, target).value.value == Some(data.betAmount)
  {
  }

  /** Every request goes to the localhost deployment of the contract. */
  lemma RequestsTargetLocalhost(lib: Primitives, c: Client, target: int)
    ensures CreateGameRequest(lib, c).Some? ==> CreateGameRequest(lib, c).value.to == HookContractAddress()
    ensures JoinGameRequest(lib, c, target).Some? ==> JoinGameRequest(lib, c, target).value.to == HookContractAddress()
    ensures CommitMoveRequest(lib, c).Some? ==> CommitMoveRequest(lib, c).value.to == HookContractAddress()
    ensures RevealMoveRequest(lib, c).Some? ==> RevealMoveRequest(lib, c).value.to == HookContractAddress()
    ensures ClaimTimeoutRequest(c).Some? ==> ClaimTimeoutRequest(c).value.to == HookContractAddress()
    ensures CancelGameRequest(c).Some? ==> CancelGameRequest(c).value.to == HookContractAddress()
  {
  }

  /** The commit hashes viem's `toBytes(secret)` while the reveal sends the
      TextEncoder bytes of the same secret. A commitment recomputed from the
      revealed move and secret bytes (and the same address) equals the one
      committed when the two encodings agree; otherwise it equals it only if
      the committed and the revealed preimages are a keccak256 collision. */
  lemma RevealMatchesCommitIff(lib: Primitives, c: Client)
    requires MoveActionAllowed(c)
    ensures CommitMoveRequest(lib, c).Some? && RevealMoveRequest(lib, c).Some?
    ensures
      var committed := CommitMoveRequest(lib, c).value.args[1].bytes;
      var revealRequest := RevealMoveRequest(lib, c).value;
      var moveBytes := lib.toBytes(Number(revealRequest.args[1].n));
      var addressBytes := lib.toBytes(AddressValue(c.address));
      var revealedPreimage := Commitment.Preimage(moveBytes, Hex.HexToBytes(revealRequest.args[2].s).value, addressBytes);
      var committedPreimage := Commitment.Preimage(moveBytes, lib.toBytes(Str(c.secret)), addressBytes);
      && (lib.toBytes(Str(c.secret)) == lib.textEncode(c.secret) ==> committed == lib.keccak256(revealedPreimage))
      && (committed == lib.keccak256(revealedPreimage) ==>
            lib.toBytes(Str(c.secret)) == lib.textEncode(c.secret)
            || Collision(lib.keccak256, committedPreimage, revealedPreimage))
  {
    var moveBytes := lib.toBytes(Number(c.selectedMove.value));
    var addressBytes := lib.toBytes(AddressValue(c.address));
    var committedPreimage := Commitment.Preimage(moveBytes, lib.toBytes(Str(c.secret)), addressBytes);
    var revealedPreimage := Commitment.Preimage(moveBytes, lib.textEncode(c.secret), addressBytes);
    if committedPreimage == revealedPreimage {
      Commitment.PreimageInjective(moveBytes, lib.toBytes(Str(c.secret)), addressBytes,
                                   moveBytes, lib.textEncode(c.secret), addressBytes);
    }
  }

  /** Switching to another game keeps the previous record until the new game's
      data arrives: in between, joining uses the previous game's bet and the
      membership predicates consult the previous game's players. */
  lemma StaleRecordAfterSwitch(lib: Primitives, c: Client, newGameId: Option<int>, target: int)
    ensures var switched := c.(gameId := newGameId, gameInfo := GameInfoUpdate(lib, c.gameInfo, None));
      && switched.gameInfo == c.gameInfo
      && JoinGameRequest(lib, switched, target) == JoinGameRequest(lib, c, target)
      && IsPlayerInGame(switched.gameInfo, c.address) == IsPlayerInGame(c.gameInfo, c.address)
      && IsGameCreator(switched.gameInfo, c.address) == IsGameCreator(c.gameInfo, c.address)
  {
  }

  // --------------------------------------------------- conformance to ABI

  const Uint256Bound: int := 0x1_0000_0000_0000_0000_0000_0000_0000_0000_0000_0000_0000_0000_0000_0000_0000_0000

  /** Whether an argument is a value of an ABI input type; bytes32 holds exactly 32 bytes. */
  predicate ArgConforms(a: Arg, t: Contract.AbiType) {
    match t
    case UInt8 => a.Num? && 0 <= a.n < 256
    case UInt256 => a.Num? && 0 <= a.n < Uint256Bound
    case Bytes32 =>
      || (a.Digest? && |a.bytes| == 32)
      || (a.HexString? && Hex.HexToBytes(a.s).Some? && |Hex.HexToBytes(a.s).value| == 32)
    case _ => false
  }

  /** Whether a request matches its function's ABI entry: one conforming argument
      per input, in order, and a value attached exactly when the function is payable. */
  predicate Conforms(r: Request) {
    var f := Contract.AbiFunctionOf(r.fn);
    && |r.args| == |f.inputs|
    && (forall i :: 0 <= i < |r.args| ==> ArgConforms(r.args[i], f.inputs[i]))
    && (r.value.Some? <==> f.mutability == Contract.Payable)
  }

  /** createGame carries no arguments and a value, as its payable ABI entry demands. */
  lemma CreateGameConforms(lib: Primitives, c: Client)
    requires CreateGameRequest(lib, c).Some?
    ensures Conforms(CreateGameRequest(lib, c).value)
  {
  }

  /** joinGame fits the ABI exactly when the target game id is a uint256. */
  lemma JoinConformsIff(lib: Primitives, c: Client, target: int)
    requires JoinGameRequest(lib, c, target).Some?
    ensures Conforms(JoinGameRequest(lib, c, target).value) <==> 0 <= target < Uint256Bound
  {
    var r := JoinGameRequest(lib, c, target).value;
    assert r.args == [Num(target)] && r.value.Some?;
    assert Contract.AbiFunctionOf(r.fn).inputs == [Contract.UInt256];
    if Conforms(r) {
      assert ArgConforms(r.args[0], Contract.UInt256);
    }
  }

  /** claimTimeout fits the ABI exactly when the game id is a uint256. */
  lemma ClaimTimeoutConformsIff(c: Client)
    requires ClaimTimeoutRequest(c).Some?
    ensures Conforms(ClaimTimeoutRequest(c).value) <==> 0 <= c.gameId.value < Uint256Bound
  {
    var r := ClaimTimeoutRequest(c).value;
    assert Contract.AbiFunctionOf(r.fn).inputs == [Contract.UInt256];
    if Conforms(r) {
      assert ArgConforms(r.args[0], Contract.UInt256);
    }
  }

  /** cancelGame fits the ABI exactly when the game id is a uint256. */
  lemma CancelConformsIff(c: Client)
    requires CancelGameRequest(c).Some?
    ensures Conforms(CancelGameRequest(c).value) <==> 0 <= c.gameId.value < Uint256Bound
  {
    var r := CancelGameRequest(c).value;
    assert Contract.AbiFunctionOf(r.fn).inputs == [Contract.UInt256];
    if Conforms(r) {
      assert ArgConforms(r.args[0], Contract.UInt256);
    }
  }

  /** commitMove fits the ABI exactly when the game id is a uint256 and the digest has 32 bytes. */
  lemma CommitConformsIff(lib: Primitives, c: Client)
    requires CommitMoveRequest(lib, c).Some?
    ensures Conforms(CommitMoveRequest(lib, c).value) <==>
      0 <= c.gameId.value < Uint256Bound && |CommitMoveRequest(lib, c).value.args[1].bytes| == 32
  {
    var r := CommitMoveRequest(lib, c).value;
    if Conforms(r) {
      assert ArgConforms(r.args[0], Contract.UInt256);
      assert ArgConforms(r.args[1], Contract.Bytes32);
    }
  }

  /** A revealMove request with the given arguments fits the ABI exactly when the
      game id is a uint256, the move a uint8 and the hex string holds 32 bytes. */
  lemma RevealArgsConformIff(to: Address, gameId: int, move: int, hex: string, secretBytes: Bytes)
    requires Hex.HexToBytes(hex) == Some(secretBytes)
    ensures Conforms(Request(to, Contract.RevealMove, [Num(gameId), Num(move), HexString(hex)], None)) <==>
      0 <= gameId < Uint256Bound && 0 <= move < 256 && |secretBytes| == 32
  {
    var r := Request(to, Contract.RevealMove, [Num(gameId), Num(move), HexString(hex)], None);
    var inputs := Contract.AbiFunctionOf(r.fn).inputs;
    assert inputs == [Contract.UInt256, Contract.UInt8, Contract.Bytes32];
    if 0 <= gameId < Uint256Bound && 0 <= move < 256 && |secretBytes| == 32 {
      assert ArgConforms(r.args[0], inputs[0]);
      assert ArgConforms(r.args[1], inputs[1]);
      assert ArgConforms(r.args[2], inputs[2]);
    }
    if Conforms(r) {
      assert ArgConforms(r.args[0], Contract.UInt256);
      assert ArgConforms(r.args[1], Contract.UInt8);
      assert ArgConforms(r.args[2], Contract.Bytes32);
    }
  }

  /** revealMove fits the ABI only when, besides a uint256 game id and a uint8 move,
      the secret's UTF-8 encoding is exactly 32 bytes, because stringToBytes32
      neither pads nor truncates. */
  lemma RevealConformsIff(lib: Primitives, c: Client)
    requires MoveActionAllowed(c)
    ensures RevealMoveRequest(lib, c).Some?
    ensures Conforms(RevealMoveRequest(lib, c).value) <==>
      0 <= c.gameId.value < Uint256Bound && 0 <= c.selectedMove.value < 256 && |lib.textEncode(c.secret)| == 32
  {
    var r := RevealMoveRequest(lib, c).value;
    assert r == Request(r.to, Contract.RevealMove, [r.args[0], r.args[1], r.args[2]], None);
    RevealArgsConformIff(r.to, c.gameId.value, c.selectedMove.value, r.args[2].s, lib.textEncode(c.secret));
  }

  /** The contract's `generateCommitment` takes (uint8, bytes32, address) in the
      client's (move, secret, address) order. With a one-byte move and a 20-byte
      address, the client's preimage has the packed width of those parameters
      exactly when the secret's bytes number 32. */
  lemma PreimageMatchesAbiWidthIff(lib: Primitives, move: JsValue, secret: JsValue, address: JsValue)
    requires |lib.toBytes(move)| == 1 && |lib.toBytes(address)| == 20
    ensures Contract.AbiFunctionOf(Contract.GenerateCommitment).inputs
         == [Contract.UInt8, Contract.Bytes32, Contract.AddressType]
    ensures |Commitment.Preimage(lib.toBytes(move), lib.toBytes(secret), lib.toBytes(address))|
         == Contract.PackedWidths(Contract.AbiFunctionOf(Contract.GenerateCommitment).inputs)
        <==> |lib.toBytes(secret)| == 32
  {
    var ts := [Contract.UInt8, Contract.Bytes32, Contract.AddressType];
    assert ts[1..] == [Contract.Bytes32, Contract.AddressType];
    assert ts[1..][1..] == [Contract.AddressType];
    assert Contract.PackedWidths(ts) == 53;
  }

  // ------------------------------------------------------------ membership

  /** `Array.prototype.includes` on the players array. */
  function Includes(xs: seq<Address>, x: Address): (r: bool)
    ensures r <==> x in xs
  {
    |xs| > 0 && (xs[0] == x || Includes(xs[1..], x))
  }

  /** `isPlayerInGame`: false without a game record or a (truthy) address,
      otherwise whether the address occupies one of the two player slots. */
  function IsPlayerInGame(info: Option<GameInfo>, address: Option<Address>): (r: bool)
    ensures r ==> info.Some? && AddressTruthy(address)
    ensures info.Some? && AddressTruthy(address) && |info.value.players| == 2 ==>
      (r <==> address.value == info.value.players[0] || address.value == info.value.players[1])
  {
    if info.None? || !AddressTruthy(address) then false
    else Includes(info.value.players, address.value)
  }

  /** `isGameCreator`: the address occupies slot 0. */
  function IsGameCreator(info: Option<GameInfo>, address: Option<Address>): (r: bool)
    ensures r <==> info.Some? && AddressTruthy(address) && |info.value.players| > 0
                   && info.value.players[0] == address.value
  {
    if info.None? || !AddressTruthy(address) then false
    else |info.value.players| > 0 && info.value.players[0] == address.value
  }

  /** The creator is a player, and a player of a two-slot game who is not the
      creator holds slot 1. */
  lemma CreatorIsPlayer(info: Option<GameInfo>, address: Option<Address>)
    ensures IsGameCreator(info, address) ==> IsPlayerInGame(info, address)
    ensures info.Some? && |info.value.players| == 2 && IsPlayerInGame(info, address) && !IsGameCreator(info, address)
      ==> address.value == info.value.players[1]
  {
  }

  // ---------------------------------------------------------------- labels

  function StateLabel(s: Contract.GameState): string {
    match s
    case WaitingForPlayer => "Waiting for Player"
    case CommitPhase => "Commit Phase"
    case RevealPhase => "Reveal Phase"
    case Finished => "Finished"
    case TimedOut => "Timed Out"
  }

  /** `getGameStateText(state)`: the label of the state the code decodes to, "Unknown" otherwise. */
  function GetGameStateText(state: int): (r: string)
    ensures Contract.StateFromCode(state).Some? ==> r == StateLabel(Contract.StateFromCode(state).value)
    ensures Contract.StateFromCode(state).None? ==> r == "Unknown"
  {
    if state == Contract.StateCode(Contract.WaitingForPlayer) then "Waiting for Player"
    else if state == Contract.StateCode(Contract.CommitPhase) then "Commit Phase"
    else if state == Contract.StateCode(Contract.RevealPhase) then "Reveal Phase"
    else if state == Contract.StateCode(Contract.Finished) then "Finished"
    else if state == Contract.StateCode(Contract.TimedOut) then "Timed Out"
    else "Unknown"
  }

  /** The five state codes get five distinct labels, none of them "Unknown". */
  lemma StateTextsDistinct(a: int, b: int)
    requires 0 <= a < 5 && 0 <= b < 5
    ensures GetGameStateText(a) != "Unknown"
    ensures a != b ==> GetGameStateText(a) != GetGameStateText(b)
  {
    assert "Commit Phase"[0] != "Reveal Phase"[0];
  }

  function MoveLabel(m: Contract.MoveOption): string {
    match m
    case NotRevealedYet => "Not Revealed"
    case Rock => "Rock"
    case Paper => "Paper"
    case Scissors => "Scissors"
  }

  /** `getMoveText(move)`: the label of the move the code decodes to, "Unknown" otherwise. */
  function GetMoveText(move: int): (r: string)
    ensures Contract.MoveFromCode(move).Some? ==> r == MoveLabel(Contract.MoveFromCode(move).value)
    ensures Contract.MoveFromCode(move).None? ==> r == "Unknown"
  {
    if move == Contract.MoveCode(Contract.Rock) then "Rock"
    else if move == Contract.MoveCode(Contract.Paper) then "Paper"
    else if move == Contract.MoveCode(Contract.Scissors) then "Scissors"
    else if move == Contract.MoveCode(Contract.NotRevealedYet) then "Not Revealed"
    else "Unknown"
  }

  /** The four move codes get four distinct labels, none of them "Unknown", and 0 reads "Not Revealed". */
  lemma MoveTextsDistinct(a: int, b: int)
    requires 0 <= a < 4 && 0 <= b < 4
    ensures GetMoveText(a) != "Unknown"
    ensures GetMoveText(0) == "Not Revealed"
    ensures a != b ==> GetMoveText(a) != GetMoveText(b)
  {
  }

  // --------------------------------------------------------------- loading

  /** The six `isLoading` flags of the transaction-receipt hooks. */
  datatype PendingTransactions = PendingTransactions(
    creatingGame: bool, joiningGame: bool, committingMove: bool,
    revealingMove: bool, claimingTimeout: bool, cancelingGame: bool)

  function Flags(p: PendingTransactions): seq<bool> {
    [p.creatingGame, p.joiningGame, p.committingMove, p.revealingMove, p.claimingTimeout, p.cancelingGame]
  }

  /** `isLoading`: some transaction is still waiting for its receipt. */
  function IsLoading(p: PendingTransactions): (r: bool)
    ensures r <==> exists i :: 0 <= i < |Flags(p)| && Flags(p)[i]
  {
    var r := p.creatingGame || p.joiningGame || p.committingMove
          || p.revealingMove || p.claimingTimeout || p.cancelingGame;
    assert r ==> exists i :: 0 <= i < |Flags(p)| && Flags(p)[i] by {
      if p.creatingGame { assert Flags(p)[0]; }
      else if p.joiningGame { assert Flags(p)[1]; }
      else if p.committingMove { assert Flags(p)[2]; }
      else if p.revealingMove { assert Flags(p)[3]; }
      else if p.claimingTimeout { assert Flags(p)[4]; }
      else if p.cancelingGame { assert Flags(p)[5]; }
    }
    r
  }
}
