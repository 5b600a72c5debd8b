# Supply-chain and private-deal ledger contracts in Dafny

This project models two independent smart contracts that run on a
permissioned ledger:

- the public supply-chain contract (`chaincode/sc/sc_chaincode.go`), which
  keeps one `Asset` per name in the world state. An asset is created once by
  its first owner. It is then sold as an original (new owner and original
  price), processed (a free-text note) and sold as a processed asset (new
  owner and processed price). The contract can also list every asset and
  return the change history of one asset;
- the private deal contract (`chaincode/sc_private/go/sc_private.go`). It
  records a deal once, taking the input from the transaction's transient map
  (entry `"scprivasset"`). The input is validated field by field and written
  as a `PrivateAsset` tagged `docType = "SCPrivAsset"` into the restricted
  collection `collectionPrivateData`. The contract can read a record, list
  all records and fetch a record's commitment hash.

The world state and the private collection are immutable maps from key to
stored value (`Ledger.Store`). A stored value either decodes to a record or
is `Malformed`, which stands for bytes that the JSON decoder rejects. Every
contract method is a pure function from the store and its arguments to a
`Ledger.Result`. Writing methods return the new store; reading methods
return their answer. The two list-all methods are Dafny methods over the
shared scan `Ledger.ScanAll`. It picks the next key freely, because the key
order belongs to the ledger runtime.

Transactions are committed by the runtime: a failed transaction is aborted
and writes nothing. `AssetLedger.Replay` and `PrivateLedger.Replay` apply a
sequence of transactions that way. They carry the invariants over any
history:

- public assets are never removed or renamed, and each stays filed under its
  own name;
- every private record satisfies the deal validation and is never changed
  after it is written.

Files: `ledger.dfy` (shared store, errors and scan), `asset_ledger.dfy`
(module `AssetLedger`), `private_ledger.dfy` (module `PrivateLedger`).

## Model

| member | source | states |
|---|---|---|
| Ledger.ScanAll | chaincode/sc/sc_chaincode.go:130-153 | The full range scan `("", "")` succeeds exactly when every value it lists decodes, and then it returns one record per listed key: the keys are distinct and are exactly the stored non-empty keys that do not begin with U+0000, and the i-th record is the value at the i-th key. Otherwise it fails with a decoding error. |
| AssetLedger.AssetExists | chaincode/sc/sc_chaincode.go:24-30 | True exactly when reading the name does not report "does not exist", i.e. whenever the world state holds a value at that key, decodable or not. |
| AssetLedger.ReadAsset | chaincode/sc/sc_chaincode.go:59-75 | An absent key fails with "does not exist". Undecodable bytes fail with a decoding error. Otherwise the stored asset is returned. |
| AssetLedger.CreateAsset | chaincode/sc/sc_chaincode.go:33-56 | Fails with "already exists" exactly when the name is present (and then nothing is written). An absent empty name is refused by the ledger's write. Any other absent name succeeds: only key `name` is written, and reading it back yields the given name, property and owner, empty process info and both prices 0. |
| AssetLedger.SellOriginalAsset | chaincode/sc/sc_chaincode.go:78-93 | A failed read is propagated unchanged and nothing is written. A readable empty name is refused by the ledger's write. Otherwise it succeeds and only key `name` changes. Its owner and original price become the arguments, whatever the price's sign. The name, property, process info and processed price are kept. |
| AssetLedger.ProcessAsset | chaincode/sc/sc_chaincode.go:96-109 | A failed read is propagated unchanged and nothing is written. A readable empty name is refused by the ledger's write. Otherwise it succeeds, only key `name` changes, and only its process info is set. The other five fields are kept. |
| AssetLedger.SellProcessedAsset | chaincode/sc/sc_chaincode.go:112-127 | A failed read is propagated unchanged and nothing is written. A readable empty name is refused by the ledger's write. Otherwise it succeeds and only key `name` changes. Its owner and processed price become the arguments, whatever the price's sign. The name, property, process info and original price are kept. |
| AssetLedger.GetAllAssets | chaincode/sc/sc_chaincode.go:130-153 | An empty world state gives an empty list, not an error. The listing succeeds exactly when every listed value decodes, and then it holds one asset per listed key (every stored non-empty key not beginning with U+0000), each equal to what reading that key returns. |
| AssetLedger.GetHistory | chaincode/sc/sc_chaincode.go:156-187 | Fails with "does not exist" exactly when the asset does not exist, and succeeds whenever it exists. On success it returns one line per change-log entry, in the order the ledger's history iterator yields them, each being the rendered transaction timestamp, ":" and the raw value. |
| AssetLedger.CommitPreserves | chaincode/sc/sc_chaincode.go:33-127 | One committed transaction keeps every value decodable and filed under its own name. It never removes an asset or changes an asset's name or property. |
| AssetLedger.ReplayPreserves | chaincode/sc/sc_chaincode.go:33-127 | The same holds across any sequence of committed transactions. |
| AssetLedger.ReplayFromEmpty | chaincode/sc/sc_chaincode.go:59-75 | In a world state built only by this contract, every stored name reads back successfully as an asset carrying that name, and every value decodes, so listing never fails. |
| AssetLedger.CommitKeys | chaincode/sc/sc_chaincode.go:33-127 | A committed transaction adds a key exactly when it creates a new non-empty name; no transaction removes a key. |
| AssetLedger.ReplayKeys | chaincode/sc/sc_chaincode.go:33-127 | After any sequence of transactions a name exists exactly when it existed before or the sequence creates it under a non-empty name. |
| AssetLedger.HistoryOfNeverCreated | chaincode/sc/sc_chaincode.go:156-163 | Starting from an empty world state, the history of a name that no transaction created is refused with "does not exist". |
| AssetLedger.HistoryOfCreated | chaincode/sc/sc_chaincode.go:156-187 | Starting from an empty world state, the history of a non-empty name that some transaction created is available. |
| AssetLedger.CreateOnce | chaincode/sc/sc_chaincode.go:34-40 | After a successful creation, creating the same name again fails with "already exists", whatever the property and owner. |
| AssetLedger.SellTwiceLastWins | chaincode/sc/sc_chaincode.go:78-92 | After creation and two sales of the original, reading shows the second owner and second price, with the created name and property, empty process info and processed price 0. |
| AssetLedger.TransitionsRequireExistence | chaincode/sc/sc_chaincode.go:79-82 | Each of the three transitions fails with "does not exist" on an absent name, and committing it leaves the world state unchanged. |
| PrivateLedger.ValidInputIsEveryField | chaincode/sc_private/go/sc_private.go:47-58 | The accepted-input condition is exactly "each of the four field checks passes". |
| PrivateLedger.Validate | chaincode/sc_private/go/sc_private.go:47-58 | Accepts exactly the inputs with non-empty name, property and owner and a positive price. Otherwise it reports the first failing field in the order name, property, owner, price. |
| PrivateLedger.ReadTransient | chaincode/sc_private/go/sc_private.go:24-46 | Fails with "private data not found" exactly when the transient map has no `"scprivasset"` entry. Undecodable bytes fail with a decoding error. A decodable entry succeeds and yields the decoded input. |
| PrivateLedger.PrivateDeal | chaincode/sc_private/go/sc_private.go:23-90 | Checks run in this order: transient entry missing, then undecodable, then validation (first failing field, even when the name is taken), then duplicate name. A valid new name succeeds. On success exactly one key changes, to a record tagged "SCPrivAsset" carrying the input's name, property, owner and price. |
| PrivateLedger.ReadAssetPrivate | chaincode/sc_private/go/sc_private.go:93-109 | An absent key fails with "does not exist". Undecodable bytes fail with a decoding error. Otherwise the stored record is returned. |
| PrivateLedger.GetAllPrivateAssets | chaincode/sc_private/go/sc_private.go:112-135 | An empty collection gives an empty list. The listing succeeds exactly when every listed value decodes, and then it holds one record per listed key (every stored non-empty key not beginning with U+0000), each equal to what reading that key returns. |
| PrivateLedger.GetPrivateAssetHash | chaincode/sc_private/go/sc_private.go:138-147 | Fails with "does not exist" exactly when the collection lacks the key. When the key is present it succeeds with the ledger's digest of the stored value. |
| PrivateLedger.CommitPreserves | chaincode/sc_private/go/sc_private.go:60-84 | One committed deal keeps every record valid: decodable, tagged "SCPrivAsset", with non-empty name, property and owner, a positive price, and filed under its own name. It leaves every existing record unchanged. |
| PrivateLedger.ReplayPreserves | chaincode/sc_private/go/sc_private.go:47-84 | Any sequence of committed deals keeps every record valid. It never changes or removes a record once written, so records are immutable after creation. |
| PrivateLedger.ReplayFromEmpty | chaincode/sc_private/go/sc_private.go:47-109 | In a collection filled only by deals, every stored name reads back as a valid record, and every listed value decodes, so listing never fails. |
| PrivateLedger.CommitKeys | chaincode/sc_private/go/sc_private.go:47-84 | A committed deal adds a name exactly when its transient input is present, decodes, passes validation and carries that name; it never removes a name. |
| PrivateLedger.ReplayKeys | chaincode/sc_private/go/sc_private.go:47-84 | After any sequence of deals a name is in the collection exactly when it was there before or some deal carried a valid input for it. |
| PrivateLedger.NeverDealt | chaincode/sc_private/go/sc_private.go:93-147 | In a collection filled only by deals, reading a name that no deal carried fails with "does not exist", and so does asking for its hash. |
| PrivateLedger.DealOnce | chaincode/sc_private/go/sc_private.go:61-84 | After a successful deal the same input is refused as a duplicate. The written record reads back as written, and its hash is available. |
| PrivateLedger.InvalidBeforeDuplicate | chaincode/sc_private/go/sc_private.go:47-67 | An input whose only fault is a non-positive price fails on the price, even when its name is already in the collection. |

## Left out

- Storage failures of the ledger calls are not modelled: `GetState`, `PutState`, `GetTransient`, `GetPrivateData`, `PutPrivateData`, the range scans and the history scan (the "failed to read from world state" paths). These belong to the ledger runtime.
- JSON encoding is not modelled. Records are stored as typed values. A decoding failure (of stored bytes or of the transient input) is the opaque `Malformed` outcome, because the decoder is Go's `encoding/json` library. Encoding these records cannot fail, so the `json.Marshal` error branches have no counterpart. No serialize/deserialize round trip is stated: records never pass through bytes in the model.
- Error messages are error constructors (`NotFound`, `AlreadyExists`, ...), not the formatted strings.
- The key order of range scans belongs to the runtime. `Ledger.ScanAll` takes keys in an arbitrary order and promises nothing about order.
- AssetLedger.GetHistory: the change log and the timestamp rendering are arguments. The log is kept by the ledger. The rendering is done by Go's `time.Format`, whose layout string in the source is not a valid Go reference layout. So the model does not relate the log to the transactions that produced it. Nor does it fix the log's order (the runtime's history iterator decides it) or where its timestamps come from.
- PrivateLedger.GetPrivateAssetHash: the hash is computed by the ledger platform and is passed in as a `digest` function. Peers that hold the hash but not the private data are not modelled.
- Concurrency, multi-version concurrency control and lost updates between read-modify-write transactions are not modelled. Transactions are applied one at a time.
- `main`, chaincode start-up, method dispatch, iterator `Close`, and the console print on a duplicate deal are runtime plumbing or output, so they are not modelled.
- Go `int` is modelled as a 64-bit integer (`Ledger.Int64`), the width on the platforms the contracts run on. Prices are only stored, never computed with.
- Strings are Unicode text (`seq<char>`), while Go strings are byte strings. A name, property, owner or note that is not valid UTF-8 is outside the model. In Go, `json.Marshal` replaces invalid bytes with U+FFFD, so such a field would not read back unchanged, and a stored `assetname` could differ from its key. The read-back identity in AssetLedger.CreateAsset and the "filed under its own name" invariants hold only for valid UTF-8 text.
- Two key rules come from the platform's chaincode stub, which is not part of this model, and are stated as the model's own behaviour: every write under the empty key is refused (`Error.EmptyKey`): creation checks it after the existence check and the three transitions after their read, as the source writes only after those steps, so no operation ever stores the empty key. The full range scan starts at U+0001, so the empty key and keys beginning with U+0000 (the composite-key namespace) are stored but never listed. The private deal never writes the empty key, because validation rejects an empty name first. Any other key validation the stub or the peer performs is not modelled.
- Values under transient keys other than `"scprivasset"` are typed as deal inputs. They are never read.
- The sale transitions accept any price, including negative ones, as the code does. The private deal requires a strictly positive price. The model keeps this asymmetry as written.
