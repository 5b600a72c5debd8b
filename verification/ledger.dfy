/**
 The key-value world state shared by both contracts, the error outcomes the
 contracts return, and the full range scan both of them perform.

 Each contract method reads the store, decides, and writes at most one key.
 A stored value is the JSON encoding of a record; decoding it either yields
 the record or fails, and that failure is kept here as an opaque outcome.
 */
module Ledger {

  /** Go's `int` on the 64-bit peers the contracts run on. Prices are only
      stored and compared, never computed with, so only the range matters. */
  const INT64_MIN: int := -0x8000_0000_0000_0000
  const INT64_MAX: int := 0x7FFF_FFFF_FFFF_FFFF
  type Int64 = x: int | INT64_MIN <= x <= INT64_MAX

  /** Fields of the private deal's input, in the order they are validated. */
  datatype Field = AssetNameField | AssetPropertyField | OwnerField | PriceField

  /** The failures the two contracts report to the transaction runtime. */
  datatype Error =
    | NotFound(name: string)       // "... does not exist"
    | AlreadyExists(name: string)  // "... already exists"
    | Undecodable                  // stored or transient bytes are not a record
    | MissingTransient             // no deal input in the transient map
    | Invalid(field: Field)        // a deal input field fails validation
    | EmptyKey                     // the ledger refuses to write the empty key

  /** The outcome of a contract method; usable with `:-`. */
  datatype Result<+T> = Ok(value: T) | Err(error: Error) {
    predicate IsFailure() {
      Err?
    }

    function PropagateFailure<U>(): Result<U>
      requires Err?
    {
      Err(error)
    }

    function Extract(): T
      requires Ok?
    {
      value
    }
  }

  /** A value at a key of the store, as seen after JSON decoding. */
  datatype Stored<+R> = Decoded(record: R) | Malformed

  /** The world state (or a private collection): a key is present exactly
      when the store holds bytes for it. */
  type Store<R> = map<string, Stored<R>>

  /** `after` is `before` with at most key `k` written: no key disappears,
      `k` is the only key that may appear, and every other value is kept. */
  ghost predicate OnlyKeyChanged<R>(before: Store<R>, after: Store<R>, k: string) {
    && after.Keys == before.Keys + {k}
    && forall j :: j in before && j != k ==> j in after && after[j] == before[j]
  }

  /** Every value in the store decodes. */
  ghost predicate AllDecoded<R>(store: Store<R>) {
    forall k :: k in store ==> store[k].Decoded?
  }

  /** Keys the full range scan `("", "")` yields: the scan starts at U+0001,
      so the empty key and keys beginning with U+0000 (the composite-key
      namespace) are never listed. */
  predicate Listed(k: string) {
    |k| > 0 && k[0] != '\0'
  }

  function ListedKeys<R>(store: Store<R>): set<string> {
    set k | k in store.Keys && Listed(k)
  }

  /** Every value the full range scan yields decodes. */
  ghost predicate ListedDecoded<R>(store: Store<R>) {
    forall k :: k in store && Listed(k) ==> store[k].Decoded?
  }

  /** No key occurs twice in `keys`. */
  ghost predicate Distinct(keys: seq<string>) {
    forall i, j :: 0 <= i < j < |keys| ==> keys[i] != keys[j]
  }

  /**
   The full range scan `("", "")` followed by decoding every value, as both
   contracts' list-all methods do. The store's key order belongs to the ledger
   runtime, so the next key is chosen freely; the ghost `keys` records the
   order that was taken. The scan fails as soon as a value does not decode,
   so it succeeds exactly when every listed value decodes, and then it
   returns one record per listed key.
   */
  method ScanAll<R>(store: Store<R>) returns (r: Result<seq<R>>, ghost keys: seq<string>)
    ensures r.Ok? <==> ListedDecoded(store)
    ensures r.Err? ==> r.error == Undecodable
    ensures r.Ok? ==> |r.value| == |keys| == |ListedKeys(store)|
    ensures r.Ok? ==> Distinct(keys) && (forall k :: k in keys <==> k in store && Listed(k))
    ensures r.Ok? ==> forall i :: 0 <= i < |keys| ==> keys[i] in store && store[keys[i]] == Decoded(r.value[i])
  {
    var remaining := ListedKeys(store);
    var records: seq<R> := [];
    keys := [];
    while remaining != {}
      invariant remaining <= ListedKeys(store)
      invariant forall k :: k in keys <==> k in store && Listed(k) && k !in remaining
      invariant Distinct(keys)
      invariant |keys| + |remaining| == |ListedKeys(store)|
      invariant |records| == |keys|
      invariant forall i :: 0 <= i < |keys| ==> keys[i] in store && store[keys[i]] == Decoded(records[i])
      decreases remaining
    {
      var k :| k in remaining;
      match store[k] {
        case Malformed =>
          r := Err(Undecodable);
          return;
        case Decoded(v) =>
          records := records + [v];
          keys := keys + [k];
          remaining := remaining - {k};
      }
    }
    r := Ok(records);
  }
}
