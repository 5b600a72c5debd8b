/**
 The public supply-chain contract: one asset record per name in the world
 state, created once by its first owner and then moved through a sale of the
 original, a processing step and a sale of the processed asset.

 Every contract method is a pure function of the world state and its
 arguments. A method that writes returns the new world state; one that only
 reads returns its answer and leaves the world state alone.
 */
module AssetLedger {
  import opened Ledger

  /** The `Asset` record stored under its name. */
  datatype Asset = Asset(
    assetName: string,
    assetProperty: string,
    owner: string,
    assetProcessInfo: string,
    assetOriginalPrice: Int64,
    assetProcessPrice: Int64)

  type WorldState = Store<Asset>

  /** True exactly when the world state holds bytes for `name`, whether or
      not they decode; so it is false exactly when reading reports that the
      asset does not exist. */
  function AssetExists(ws: WorldState, name: string): (present: bool)
    ensures present <==> ReadAsset(ws, name) != Err(NotFound(name))
  {
    name in ws
  }

  /** The stored asset under `name`; fails when there is none, or when the
      stored bytes are not an asset. */
  function ReadAsset(ws: WorldState, name: string): (r: Result<Asset>)
    ensures r.Ok? <==> name in ws && ws[name].Decoded?
    ensures r.Ok? ==> ws[name] == Decoded(r.value)
    ensures r.Err? ==> r.error == (if name in ws then Undecodable else NotFound(name))
  {
    if name !in ws then Err(NotFound(name))
    else match ws[name]
      case Malformed => Err(Undecodable)
      case Decoded(asset) => Ok(asset)
  }

  /** Issues a new asset: refused when the name is taken, and refused by the
      ledger's write when the name is empty; otherwise it succeeds, only key
      `name` is written, and reading it back yields the given name, property
      and owner with no processing note and both prices zero. */
  function CreateAsset(ws: WorldState, name: string, property: string, owner: string): (r: Result<WorldState>)
    ensures AssetExists(ws, name) <==> r == Err(AlreadyExists(name))
    ensures !AssetExists(ws, name) && name == "" ==> r == Err(EmptyKey)
    ensures !AssetExists(ws, name) && name != "" ==> r.Ok?
    ensures r.Ok? ==> OnlyKeyChanged(ws, r.value, name)
    ensures r.Ok? ==> ReadAsset(r.value, name) == Ok(Asset(name, property, owner, "", 0, 0))
  {
    if AssetExists(ws, name) then Err(AlreadyExists(name))
    else if name == "" then Err(EmptyKey)
    else Ok(ws[name := Decoded(Asset(name, property, owner, "", 0, 0))])
  }

  /** Sale of the original asset: only the owner and the original price of
      the asset under `name` change; any price is accepted. A failed read is
      returned as is and nothing is written; the ledger's write refuses the
      empty key. */
  function SellOriginalAsset(ws: WorldState, name: string, newOwner: string, price: Int64): (r: Result<WorldState>)
    ensures ReadAsset(ws, name).Err? ==> r == Err(ReadAsset(ws, name).error)
    ensures ReadAsset(ws, name).Ok? && name == "" ==> r == Err(EmptyKey)
    ensures ReadAsset(ws, name).Ok? && name != "" ==> r.Ok?
    ensures r.Ok? ==> OnlyKeyChanged(ws, r.value, name)
    ensures r.Ok? ==> ReadAsset(r.value, name).Ok?
    ensures r.Ok? ==>
      var before := ReadAsset(ws, name).value;
      var after := ReadAsset(r.value, name).value;
      && after.owner == newOwner
      && after.assetOriginalPrice == price
      && after.assetName == before.assetName
      && after.assetProperty == before.assetProperty
      && after.assetProcessInfo == before.assetProcessInfo
      && after.assetProcessPrice == before.assetProcessPrice
  {
    var asset :- ReadAsset(ws, name);
    if name == "" then Err(EmptyKey)
    else Ok(ws[name := Decoded(asset.(owner := newOwner, assetOriginalPrice := price))])
  }

  /** Processing: only the processing note of the asset under `name` changes.
      A failed read is returned as is and nothing is written; the ledger's
      write refuses the empty key. */
  function ProcessAsset(ws: WorldState, name: string, info: string): (r: Result<WorldState>)
    ensures ReadAsset(ws, name).Err? ==> r == Err(ReadAsset(ws, name).error)
    ensures ReadAsset(ws, name).Ok? && name == "" ==> r == Err(EmptyKey)
    ensures ReadAsset(ws, name).Ok? && name != "" ==> r.Ok?
    ensures r.Ok? ==> OnlyKeyChanged(ws, r.value, name)
    ensures r.Ok? ==> ReadAsset(r.value, name).Ok?
    ensures r.Ok? ==>
      var before := ReadAsset(ws, name).value;
      var after := ReadAsset(r.value, name).value;
      && after.assetProcessInfo == info
      && after.assetName == before.assetName
      && after.assetProperty == before.assetProperty
      && after.owner == before.owner
      && after.assetOriginalPrice == before.assetOriginalPrice
      && after.assetProcessPrice == before.assetProcessPrice
  {
    var asset :- ReadAsset(ws, name);
    if name == "" then Err(EmptyKey)
    else Ok(ws[name := Decoded(asset.(assetProcessInfo := info))])
  }

  /** Sale of the processed asset: only the owner and the processed price of
      the asset under `name` change; any price is accepted. A failed read is
      returned as is and nothing is written; the ledger's write refuses the
      empty key. */
  function SellProcessedAsset(ws: WorldState, name: string, newOwner: string, price: Int64): (r: Result<WorldState>)
    ensures ReadAsset(ws, name).Err? ==> r == Err(ReadAsset(ws, name).error)
    ensures ReadAsset(ws, name).Ok? && name == "" ==> r == Err(EmptyKey)
    ensures ReadAsset(ws, name).Ok? && name != "" ==> r.Ok?
    ensures r.Ok? ==> OnlyKeyChanged(ws, r.value, name)
    ensures r.Ok? ==> ReadAsset(r.value, name).Ok?
    ensures r.Ok? ==>
      var before := ReadAsset(ws, name).value;
      var after := ReadAsset(r.value, name).value;
      && after.owner == newOwner
      && after.assetProcessPrice == price
      && after.assetName == before.assetName
      && after.assetProperty == before.assetProperty
      && after.assetProcessInfo == before.assetProcessInfo
      && after.assetOriginalPrice == before.assetOriginalPrice
  {
    var asset :- ReadAsset(ws, name);
    if name == "" then Err(EmptyKey)
    else Ok(ws[name := Decoded(asset.(owner := newOwner, assetProcessPrice := price))])
  }

  /** Every asset in the world state, one per key the range scan lists, in
      the order the runtime's scan yields them (`keys`); an empty world state
      gives an empty list, and a value that does not decode fails the
      listing. */
  method GetAllAssets(ws: WorldState) returns (r: Result<seq<Asset>>, ghost keys: seq<string>)
    ensures ws == map[] ==> r == Ok([])
    ensures r.Ok? <==> ListedDecoded(ws)
    ensures r.Err? ==> r.error == Undecodable
    ensures r.Ok? ==> |r.value| == |keys| == |ListedKeys(ws)|
    ensures r.Ok? ==> Distinct(keys) && (forall k :: k in keys <==> k in ws && Listed(k))
    ensures r.Ok? ==> forall i :: 0 <= i < |keys| ==> ReadAsset(ws, keys[i]) == Ok(r.value[i])
  {
    r, keys := ScanAll(ws);
  }

  /** One entry of the ledger's change log for a key: the transaction's
      timestamp in Unix seconds and the bytes written. */
  datatype Modification = Modification(seconds: int, value: string)

  /** The change history of `name`: refused when the asset does not exist;
      otherwise one line per change-log entry, in the order the ledger's
      history iterator yields them, made of the rendered timestamp, a colon
      and the raw value. The change log and the timestamp rendering belong to
      the ledger runtime and Go's time package and are taken as arguments. */
  function GetHistory(ws: WorldState, name: string, changeLog: seq<Modification>, render: int -> string): (r: Result<seq<string>>)
    ensures !AssetExists(ws, name) <==> r == Err(NotFound(name))
    ensures AssetExists(ws, name) ==> r.Ok?
    ensures r.Ok? ==> |r.value| == |changeLog|
    ensures r.Ok? ==> forall i :: 0 <= i < |changeLog| ==>
      r.value[i] == render(changeLog[i].seconds) + ":" + changeLog[i].value
  {
    if !AssetExists(ws, name) then Err(NotFound(name))
    else Ok(seq(|changeLog|, i requires 0 <= i < |changeLog| =>
      render(changeLog[i].seconds) + ":" + changeLog[i].value))
  }

  // ---------------------------------------------------------------------------
  // Transactions and the invariants they keep

  /** The contract's writing transactions, as the runtime dispatches them. */
  datatype Tx =
    | Create(name: string, property: string, owner: string)
    | SellOriginal(name: string, newOwner: string, price: Int64)
    | Process(name: string, info: string)
    | SellProcessed(name: string, newOwner: string, price: Int64)

  function Execute(ws: WorldState, tx: Tx): Result<WorldState> {
    match tx
    case Create(name, property, owner) => CreateAsset(ws, name, property, owner)
    case SellOriginal(name, newOwner, price) => SellOriginalAsset(ws, name, newOwner, price)
    case Process(name, info) => ProcessAsset(ws, name, info)
    case SellProcessed(name, newOwner, price) => SellProcessedAsset(ws, name, newOwner, price)
  }

  /** The world state after the runtime commits `tx`: a failed transaction
      is aborted and writes nothing. */
  function Commit(ws: WorldState, tx: Tx): WorldState {
    match Execute(ws, tx)
    case Ok(after) => after
    case Err(_) => ws
  }

  /** The world state after committing `txs` in order. */
  function Replay(ws: WorldState, txs: seq<Tx>): WorldState
    decreases |txs|
  {
    if txs == [] then ws else Replay(Commit(ws, txs[0]), txs[1..])
  }

  /** Every stored value decodes to an asset filed under its own name. */
  ghost predicate WellFormed(ws: WorldState) {
    forall k :: k in ws ==> ws[k].Decoded? && ws[k].record.assetName == k
  }

  /** `after` keeps every asset of `before` under the same name with the
      same property: assets are never removed and never renamed. */
  ghost predicate KeepsIdentity(before: WorldState, after: WorldState) {
    forall k :: k in before ==>
      && k in after
      && (before[k].Decoded? ==> after[k].Decoded?)
      && (before[k].Decoded? ==>
            && after[k].record.assetName == before[k].record.assetName
            && after[k].record.assetProperty == before[k].record.assetProperty)
  }

  /** One committed transaction keeps a well-formed world state well formed
      and keeps the identity of every existing asset. */
  lemma CommitPreserves(ws: WorldState, tx: Tx)
    requires WellFormed(ws)
    ensures WellFormed(Commit(ws, tx))
    ensures KeepsIdentity(ws, Commit(ws, tx))
  {
  }

  /** Any sequence of transactions keeps a well-formed world state well
      formed, never removes an asset and never changes an asset's name or
      property; so every asset ever listed or read is filed under its name. */
  lemma {:induction false} ReplayPreserves(ws: WorldState, txs: seq<Tx>)
    requires WellFormed(ws)
    ensures WellFormed(Replay(ws, txs))
    ensures KeepsIdentity(ws, Replay(ws, txs))
    decreases |txs|
  {
    if txs != [] {
      var next := Commit(ws, txs[0]);
      CommitPreserves(ws, txs[0]);
      ReplayPreserves(next, txs[1..]);
    }
  }

  /** Starting from an empty world state, every asset is readable and filed
      under its own name, so listing all assets never fails. */
  lemma ReplayFromEmpty(txs: seq<Tx>, name: string)
    requires name in Replay(map[], txs)
    ensures ReadAsset(Replay(map[], txs), name).Ok?
    ensures ReadAsset(Replay(map[], txs), name).value.assetName == name
    ensures AllDecoded(Replay(map[], txs))
    ensures ListedDecoded(Replay(map[], txs))
  {
    ReplayPreserves(map[], txs);
  }

  /** Some transaction of `txs` is a creation of `name`. */
  ghost predicate CreatedIn(txs: seq<Tx>, name: string) {
    exists i :: 0 <= i < |txs| && txs[i].Create? && txs[i].name == name
  }

  /** A committed transaction adds a key exactly when it creates a new,
      non-empty name, and never removes one. */
  lemma CommitKeys(ws: WorldState, tx: Tx)
    ensures Commit(ws, tx).Keys == ws.Keys + (if tx.Create? && tx.name != "" then {tx.name} else {})
  {
  }

  /** An asset exists after a sequence of transactions exactly when it
      existed before or the sequence creates it under a non-empty name. */
  lemma {:induction false} ReplayKeys(ws: WorldState, txs: seq<Tx>, name: string)
    ensures name in Replay(ws, txs) <==> name in ws || (name != "" && CreatedIn(txs, name))
    decreases |txs|
  {
    if txs != [] {
      CommitKeys(ws, txs[0]);
      ReplayKeys(Commit(ws, txs[0]), txs[1..], name);
      if CreatedIn(txs[1..], name) {
        var i :| 0 <= i < |txs[1..]| && txs[1..][i].Create? && txs[1..][i].name == name;
        assert txs[i + 1] == txs[1..][i];
      }
      if CreatedIn(txs, name) && !(txs[0].Create? && txs[0].name == name) {
        var i :| 0 <= i < |txs| && txs[i].Create? && txs[i].name == name;
        assert txs[1..][i - 1] == txs[i];
      }
    }
  }

  /** The history of a name that no transaction ever created, starting from
      an empty world state, is refused with "does not exist". */
  lemma HistoryOfNeverCreated(txs: seq<Tx>, name: string, changeLog: seq<Modification>, render: int -> string)
    requires !CreatedIn(txs, name)
    ensures GetHistory(Replay(map[], txs), name, changeLog, render) == Err(NotFound(name))
  {
    ReplayKeys(map[], txs, name);
  }

  /** Conversely, once a transaction has created a non-empty name, its
      history is available from then on. */
  lemma HistoryOfCreated(txs: seq<Tx>, name: string, changeLog: seq<Modification>, render: int -> string)
    requires name != "" && CreatedIn(txs, name)
    ensures GetHistory(Replay(map[], txs), name, changeLog, render).Ok?
  {
    ReplayKeys(map[], txs, name);
  }

  /** Create-once: after a successful creation the same name is refused,
      whatever property and owner the second call brings. */
  lemma CreateOnce(ws: WorldState, name: string, property: string, owner: string, property': string, owner': string)
    requires CreateAsset(ws, name, property, owner).Ok?
    ensures CreateAsset(CreateAsset(ws, name, property, owner).value, name, property', owner') == Err(AlreadyExists(name))
  {
  }

  /** Two sales of the original asset in a row: the later owner and price
      win, and the other fields are those of the freshly created asset. */
  lemma SellTwiceLastWins(ws: WorldState, name: string, property: string, owner: string,
                          b: string, p: Int64, c: string, q: Int64)
    requires CreateAsset(ws, name, property, owner).Ok?
    ensures
      var created := CreateAsset(ws, name, property, owner).value;
      var first := SellOriginalAsset(created, name, b, p);
      && first.Ok?
      && SellOriginalAsset(first.value, name, c, q).Ok?
      && ReadAsset(SellOriginalAsset(first.value, name, c, q).value, name) == Ok(Asset(name, property, c, "", q, 0))
  {
  }

  /** The three transitions fail on an absent name with "does not exist" and
      write nothing, since nothing is written before the read succeeds. */
  lemma TransitionsRequireExistence(ws: WorldState, tx: Tx)
    requires !tx.Create?
    requires !AssetExists(ws, tx.name)
    ensures Execute(ws, tx) == Err(NotFound(tx.name))
    ensures Commit(ws, tx) == ws
  {
  }
}
