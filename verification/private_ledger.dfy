/**
 The private deal contract: a deal between an original owner and a dealer
 is recorded once, from input the caller passes in the transaction's
 transient map (never written to the shared ledger), into the restricted
 collection "collectionPrivateData". Records are never updated afterwards.

 The restricted collection is the only store this contract writes; it is
 modelled as its own `Store`, and every function here takes it as argument.
 */
module PrivateLedger {
  import opened Ledger

  /** The transient map key under which the deal input is passed. */
  const TransientKey: string := "scprivasset"

  /** The `docType` discriminator of every record this contract writes. */
  const DocType: string := "SCPrivAsset"

  /** The `PrivateAsset` record of the restricted collection. */
  datatype PrivateAsset = PrivateAsset(
    objectType: string,
    assetName: string,
    assetProperty: string,
    owner: string,
    price: Int64)

  /** The deal input decoded from the transient map. */
  datatype DealInput = DealInput(
    assetName: string,
    assetProperty: string,
    owner: string,
    price: Int64)

  /** The caller's transient map; only the entry under `TransientKey` is
      ever decoded, so every value is seen as a possible deal input. */
  type TransientMap = map<string, Stored<DealInput>>

  type Collection = Store<PrivateAsset>

  /** The check on one field of the input: the three strings non-empty, the
      price strictly positive. */
  predicate Holds(input: DealInput, f: Field) {
    match f
    case AssetNameField => |input.assetName| > 0
    case AssetPropertyField => |input.assetProperty| > 0
    case OwnerField => |input.owner| > 0
    case PriceField => input.price > 0
  }

  /** Position of each field's check in the validation order. */
  function Rank(f: Field): nat {
    match f
    case AssetNameField => 0
    case AssetPropertyField => 1
    case OwnerField => 2
    case PriceField => 3
  }

  /** An input the contract accepts: name, property and owner non-empty and
      a strictly positive price. */
  ghost predicate ValidInput(input: DealInput) {
    |input.assetName| > 0 && |input.assetProperty| > 0 && |input.owner| > 0 && input.price > 0
  }

  /** The conjunction above is exactly "every field passes its check". */
  lemma ValidInputIsEveryField(input: DealInput)
    ensures ValidInput(input) <==> forall f :: Holds(input, f)
  {
    if !ValidInput(input) {
      if |input.assetName| == 0 {
        assert !Holds(input, AssetNameField);
      } else if |input.assetProperty| == 0 {
        assert !Holds(input, AssetPropertyField);
      } else if |input.owner| == 0 {
        assert !Holds(input, OwnerField);
      } else {
        assert !Holds(input, PriceField);
      }
    }
  }

  /** `f` is the first field, in validation order, whose check fails. */
  ghost predicate FirstFailing(input: DealInput, f: Field) {
    && !Holds(input, f)
    && forall g :: Rank(g) < Rank(f) ==> Holds(input, g)
  }

  /** Validation of the deal input: accepts exactly the valid inputs, and
      otherwise reports the first field, in validation order, that fails. */
  function Validate(input: DealInput): (r: Result<DealInput>)
    ensures r.Ok? <==> ValidInput(input)
    ensures r.Ok? ==> r.value == input
    ensures r.Err? ==> r.error.Invalid? && FirstFailing(input, r.error.field)
  {
    if |input.assetName| == 0 then Err(Invalid(AssetNameField))
    else if |input.assetProperty| == 0 then Err(Invalid(AssetPropertyField))
    else if |input.owner| == 0 then Err(Invalid(OwnerField))
    else if input.price <= 0 then Err(Invalid(PriceField))
    else Ok(input)
  }

  /** The deal input passed in the transient map: missing when there is no
      entry under `TransientKey`, undecodable when its bytes are not one. */
  function ReadTransient(transient: TransientMap): (r: Result<DealInput>)
    ensures TransientKey !in transient <==> r == Err(MissingTransient)
    ensures TransientKey in transient && transient[TransientKey] == Malformed ==> r == Err(Undecodable)
    ensures TransientKey in transient && transient[TransientKey].Decoded? ==> r.Ok?
    ensures r.Ok? ==> TransientKey in transient && transient[TransientKey] == Decoded(r.value)
  {
    if TransientKey !in transient then Err(MissingTransient)
    else match transient[TransientKey]
      case Malformed => Err(Undecodable)
      case Decoded(input) => Ok(input)
  }

  /** The record a deal writes for a valid input. */
  function Record(input: DealInput): PrivateAsset {
    PrivateAsset(DocType, input.assetName, input.assetProperty, input.owner, input.price)
  }

  /**
   Records a private deal. The checks run in a fixed order and the first that
   fails decides the error: the transient entry must be present, then decode,
   then pass validation field by field, and only then must the name be new to
   the collection. On success exactly one key changes: the input's name now
   holds a record tagged `DocType` carrying the input's fields.
   */
  function PrivateDeal(col: Collection, transient: TransientMap): (r: Result<Collection>)
    ensures TransientKey !in transient ==> r == Err(MissingTransient)
    ensures TransientKey in transient && transient[TransientKey] == Malformed ==> r == Err(Undecodable)
    ensures TransientKey in transient && transient[TransientKey].Decoded? ==>
      var input := transient[TransientKey].record;
      && (!ValidInput(input) ==> r.Err? && r.error.Invalid? && FirstFailing(input, r.error.field))
      && (ValidInput(input) && input.assetName in col ==> r == Err(AlreadyExists(input.assetName)))
      && (ValidInput(input) && input.assetName !in col ==> r.Ok?)
    ensures r.Ok? ==> TransientKey in transient && transient[TransientKey].Decoded?
    ensures r.Ok? ==>
      var input := transient[TransientKey].record;
      && OnlyKeyChanged(col, r.value, input.assetName)
      && r.value[input.assetName] == Decoded(PrivateAsset(DocType, input.assetName, input.assetProperty, input.owner, input.price))
  {
    var input :- ReadTransient(transient);
    var valid :- Validate(input);
    if valid.assetName in col then Err(AlreadyExists(valid.assetName))
    else Ok(col[valid.assetName := Decoded(Record(valid))])
  }

  /** The stored record under `name`; fails when there is none, or when the
      stored bytes are not a record. */
  function ReadAssetPrivate(col: Collection, name: string): (r: Result<PrivateAsset>)
    ensures r.Ok? <==> name in col && col[name].Decoded?
    ensures r.Ok? ==> col[name] == Decoded(r.value)
    ensures r.Err? ==> r.error == (if name in col then Undecodable else NotFound(name))
  {
    if name !in col then Err(NotFound(name))
    else match col[name]
      case Malformed => Err(Undecodable)
      case Decoded(asset) => Ok(asset)
  }

  /** Every record of the collection, one per key the range scan lists, in
      the order the runtime's scan yields them (`keys`); an empty collection
      gives an empty list, and a value that does not decode fails the
      listing. */
  method GetAllPrivateAssets(col: Collection) returns (r: Result<seq<PrivateAsset>>, ghost keys: seq<string>)
    ensures col == map[] ==> r == Ok([])
    ensures r.Ok? <==> ListedDecoded(col)
    ensures r.Err? ==> r.error == Undecodable
    ensures r.Ok? ==> |r.value| == |keys| == |ListedKeys(col)|
    ensures r.Ok? ==> Distinct(keys) && (forall k :: k in keys <==> k in col && Listed(k))
    ensures r.Ok? ==> forall i :: 0 <= i < |keys| ==> ReadAssetPrivate(col, keys[i]) == Ok(r.value[i])
  {
    r, keys := ScanAll(col);
  }

  /** The commitment hash of the record under `name`, as the ledger computes
      it (`digest`): available exactly when the collection holds the key. */
  function GetPrivateAssetHash(col: Collection, name: string, digest: Stored<PrivateAsset> -> string): (r: Result<string>)
    ensures name !in col <==> r == Err(NotFound(name))
    ensures name in col ==> r.Ok?
    ensures r.Ok? ==> r.value == digest(col[name])
  {
    if name !in col then Err(NotFound(name)) else Ok(digest(col[name]))
  }

  // ---------------------------------------------------------------------------
  // Deals committed in sequence, and what every stored record satisfies

  /** The collection after the runtime commits one deal: a failed deal is
      aborted and writes nothing. */
  function Commit(col: Collection, transient: TransientMap): Collection {
    match PrivateDeal(col, transient)
    case Ok(after) => after
    case Err(_) => col
  }

  /** The collection after committing one deal per transient map, in order. */
  function Replay(col: Collection, deals: seq<TransientMap>): Collection
    decreases |deals|
  {
    if deals == [] then col else Replay(Commit(col, deals[0]), deals[1..])
  }

  /** A record as a deal writes it: tagged `DocType`, with non-empty name,
      property and owner and a positive price. */
  ghost predicate ValidRecord(p: PrivateAsset) {
    && p.objectType == DocType
    && |p.assetName| > 0
    && |p.assetProperty| > 0
    && |p.owner| > 0
    && p.price > 0
  }

  /** Every stored value decodes to a valid record filed under its name. */
  ghost predicate AllValid(col: Collection) {
    forall k :: k in col ==> col[k].Decoded? && ValidRecord(col[k].record) && col[k].record.assetName == k
  }

  /** `after` holds every record of `before`, unchanged. */
  ghost predicate KeepsRecords(before: Collection, after: Collection) {
    forall k :: k in before ==> k in after && after[k] == before[k]
  }

  /** One committed deal keeps every record valid, and leaves every record
      that was already there as it was. */
  lemma CommitPreserves(col: Collection, transient: TransientMap)
    requires AllValid(col)
    ensures AllValid(Commit(col, transient))
    ensures KeepsRecords(col, Commit(col, transient))
  {
  }

  /** Any sequence of deals keeps every record valid and never changes or
      removes a record once it is written. */
  lemma {:induction false} ReplayPreserves(col: Collection, deals: seq<TransientMap>)
    requires AllValid(col)
    ensures AllValid(Replay(col, deals))
    ensures KeepsRecords(col, Replay(col, deals))
    decreases |deals|
  {
    if deals != [] {
      CommitPreserves(col, deals[0]);
      ReplayPreserves(Commit(col, deals[0]), deals[1..]);
    }
  }

  /** A collection filled only through deals holds only valid records, so
      reading any stored name succeeds and yields a valid record. */
  lemma ReplayFromEmpty(deals: seq<TransientMap>, name: string)
    requires name in Replay(map[], deals)
    ensures ReadAssetPrivate(Replay(map[], deals), name).Ok?
    ensures ValidRecord(ReadAssetPrivate(Replay(map[], deals), name).value)
    ensures ListedDecoded(Replay(map[], deals))
  {
    ReplayPreserves(map[], deals);
  }

  /** `transient` carries a valid deal input for `name`. */
  ghost predicate Carries(transient: TransientMap, name: string) {
    && TransientKey in transient
    && transient[TransientKey].Decoded?
    && ValidInput(transient[TransientKey].record)
    && transient[TransientKey].record.assetName == name
  }

  /** Some deal of `deals` carries a valid input for `name`. */
  ghost predicate DealtIn(deals: seq<TransientMap>, name: string) {
    exists i :: 0 <= i < |deals| && Carries(deals[i], name)
  }

  /** A committed deal adds a name exactly when it carries a valid input
      for it, and never removes one. */
  lemma CommitKeys(col: Collection, transient: TransientMap, name: string)
    ensures name in Commit(col, transient) <==> name in col || Carries(transient, name)
  {
  }

  /** A name is in the collection after a sequence of deals exactly when it
      was there before or some deal carried a valid input for it. */
  lemma {:induction false} ReplayKeys(col: Collection, deals: seq<TransientMap>, name: string)
    ensures name in Replay(col, deals) <==> name in col || DealtIn(deals, name)
    decreases |deals|
  {
    if deals != [] {
      CommitKeys(col, deals[0], name);
      ReplayKeys(Commit(col, deals[0]), deals[1..], name);
      if DealtIn(deals[1..], name) {
        var i :| 0 <= i < |deals[1..]| && Carries(deals[1..][i], name);
        assert deals[i + 1] == deals[1..][i];
      }
      if DealtIn(deals, name) && !Carries(deals[0], name) {
        var i :| 0 <= i < |deals| && Carries(deals[i], name);
        assert deals[1..][i - 1] == deals[i];
      }
    }
  }

  /** In a collection filled only through deals, a name that no deal carried
      is reported as not existing, both when read and when its hash is asked. */
  lemma NeverDealt(deals: seq<TransientMap>, name: string, digest: Stored<PrivateAsset> -> string)
    requires !DealtIn(deals, name)
    ensures ReadAssetPrivate(Replay(map[], deals), name) == Err(NotFound(name))
    ensures GetPrivateAssetHash(Replay(map[], deals), name, digest) == Err(NotFound(name))
  {
    ReplayKeys(map[], deals, name);
  }

  /** A deal is one-shot: once it succeeds, the same transient input is
      refused as a duplicate, and the stored record reads back as written
      and has a commitment hash. */
  lemma DealOnce(col: Collection, transient: TransientMap, digest: Stored<PrivateAsset> -> string)
    requires PrivateDeal(col, transient).Ok?
    ensures
      var input := transient[TransientKey].record;
      var after := PrivateDeal(col, transient).value;
      && PrivateDeal(after, transient) == Err(AlreadyExists(input.assetName))
      && ReadAssetPrivate(after, input.assetName) == Ok(Record(input))
      && GetPrivateAssetHash(after, input.assetName, digest).Ok?
  {
  }

  /** Validation comes before the duplicate check: an invalid input is
      refused for its first failing field even when its name is taken. */
  lemma InvalidBeforeDuplicate(col: Collection, transient: TransientMap, input: DealInput)
    requires TransientKey in transient && transient[TransientKey] == Decoded(input)
    requires input.assetName in col
    requires input.price <= 0
    requires |input.assetName| > 0 && |input.assetProperty| > 0 && |input.owner| > 0
    ensures PrivateDeal(col, transient) == Err(Invalid(PriceField))
  {
  }
}
