# AvlonDB in Dafny

A model of the `AvlonDB` façade of avlon_db. The façade is a typed key-value
store over the sled embedded engine. It serializes records with serde_json
and offers five operations: `save`, `load`, `load_range`, `update` and
`remove`.

The model has these parts.

- **Engine.** The engine is modelled by its contents: the field `client` of the class
  `AvlonDb.AvlonDB`, a finite map from key bytes to value bytes.
  `save`, `update` and `remove` are methods that reassign that field.
  `load` is a function that reads it.
  `load_range` is a method whose loop visits the keys of a range in
  ascending order, as sled's range iterator yields them, and pushes each
  decoded value.
- **Keys.** A key reaches the engine as its UTF-8 bytes, the way `&str` and
  `String` do through `AsRef<[u8]>`. Module `Utf8` writes the encoder out and
  proves it is injective by giving it an inverse decoder. So two different
  keys never share a store entry.
- **Key order.** sled orders its keys like Rust's `Ord` on `[u8]`.
  Module `ByteStrings` defines that order recursively as `Less`. It proves
  `Less` is a strict total order and that it agrees with the textbook
  definition: a proper prefix, or a smaller first differing byte. It also
  defines `SortedKeys`, the ascending enumeration of a finite key set, and
  proves there is only one.
- **serde_json.** serde_json is a `Serde.Codec<T>`: a partial `encode` and a
  partial `decode` for the type the caller names. The round trip that
  serde's derived implementations give for records such as `Account` and
  `Data` is the hypothesis `Serde.RoundTrips`. Every lemma that needs it
  takes it as a hypothesis; it is not true of every serializable type.
- **Errors.** The `Box<dyn Error>` results are `Outcome` (for `()`) and
  `Result<T>`, with the error kinds `EncodingFailed`, `DecodingFailed` and
  `KeyNotFound(key)`. The message of `KeyNotFound(key)` is the text that
  `update` formats.
- **Example scripts.** Module `Usage` replays the two example programs,
  `basic_usage` and `range_usage`, on a fresh, empty store. It proves what
  each of their loads returns.

`load_range` is half-open: Rust's range `start..end`, which the code
passes to the engine (src/lib.rs:81), excludes `end`. On the range
script's keys `key_0` .. `key_9`, the call `load_range("key_0", "key_9")`
therefore returns nine records, those of `key_0` .. `key_8`.

A value in range that does not decode makes `load_range` panic (`unwrap`,
src/lib.rs:83) rather than return an error. So `LoadRange` requires that
every value in range decodes.

## Model

| member | source | states |
|---|---|---|
| Serde.RoundTrips | src/lib.rs:39 | the hypothesis on a `Codec` (the pair `to_vec` / `from_slice` for the caller's record type, src/lib.rs:39, 58, 83, 119): every value that encodes decodes back to itself |
| AvlonDb.AvlonDB.constructor | src/lib.rs:20-23 | a new façade's engine holds the given contents (empty for a fresh database) |
| AvlonDb.AvlonDB.Save | src/lib.rs:35-42 | if encoding fails, the result is an encoding error and the store is unchanged; otherwise the key's bytes are mapped to the encoding, overwriting any earlier value, and every other entry stays as it was |
| AvlonDb.AvlonDB.Load | src/lib.rs:53-63 | `Ok(None)` exactly when the key is absent; `Ok(Some(v))` only when the stored bytes decode to `v`; an error exactly when the key is present and its bytes do not decode, and that error is a decoding error; reads the store and changes nothing |
| AvlonDb.AvlonDB.LoadAfterWrite | src/lib.rs:57-59 | once the encoding of `v` is stored under a key, with a round-tripping codec, `load` of that key returns `Ok(Some(v))` |
| AvlonDb.AvlonDB.LoadRange | src/lib.rs:75-88 | returns one value per stored key `k` with `start <= k < end` in byte order; the i-th value is the decoding of the i-th such key in ascending order; changes nothing; requires that every value in range decodes (the `unwrap`) |
| AvlonDb.AvlonDB.DecodeAscending | src/lib.rs:79-86 | the loop of `load_range`: visiting the least unvisited key each step, it returns the decoded values of a key set in the set's ascending order, one per key |
| AvlonDb.ScanStep | src/lib.rs:81 | taking the least remaining key keeps the visited keys a prefix of the ascending enumeration |
| AvlonDb.RangeKeys | src/lib.rs:81 | the stored keys `k` with `start <= k < end`; every key of the range is a stored key |
| AvlonDb.EmptyRange | src/lib.rs:81 | a range from a key to itself holds no key, because the end is excluded |
| AvlonDb.RangeSplit | src/lib.rs:81 | for `a <= b <= c`, the ranges `[a, b)` and `[b, c)` are disjoint and together make up `[a, c)` |
| AvlonDb.AvlonDB.Remove | src/lib.rs:99-102 | always succeeds; the store loses the key's entry and keeps every other entry; an absent key leaves the store unchanged |
| AvlonDb.AvlonDB.Update | src/lib.rs:114-125 | an absent key gives the missing-key error for that key and no change; a present key with a failing encoding gives an encoding error and no change; otherwise only that key's value is replaced by the encoding; the key set never changes |
| AvlonDb.DbError.Message | src/lib.rs:123 | the missing-key error's text begins `Key '` and then quotes the key; the encoding and decoding errors have placeholder texts that do not begin that way |
| AvlonDb.NotFoundMessageNamesKey | src/lib.rs:123 | two missing-key messages are equal exactly when they name the same key |
| Utf8.Encode | src/lib.rs:40 | a key's bytes as the engine receives them, the UTF-8 form of each character in turn: at least one and at most four bytes per character; `Utf8.EncodeInjective` makes it a faithful key encoding |
| Utf8.EncodeChar | src/lib.rs:40 | a character's UTF-8 form is one to four bytes |
| Utf8.DecodeCharEncodeChar | src/lib.rs:57 | decoding the UTF-8 form of a character, whatever follows it, gives back that character and its length |
| Utf8.DecodeEncode | src/lib.rs:57 | decoding the UTF-8 bytes of a key gives back the key |
| Utf8.EncodeInjective | src/lib.rs:57 | two keys have the same bytes exactly when they are the same key, so `get` finds only what was inserted under that key |
| Utf8.EncodeAppend | src/lib.rs:81 | the bytes of a concatenation are the concatenation of the bytes |
| Utf8.EncodeAsciiChar | src/lib.rs:81 | an ASCII character is the single byte of its code |
| ByteStrings.Less | src/lib.rs:81 | sled's key order, Rust's `Ord` on `[u8]`, defined by recursion on the first byte; `ByteStrings.LessCharacterization` proves it is the proper-prefix / first-differing-byte order |
| ByteStrings.LessEq | src/lib.rs:81 | the non-strict key order: equal, or sorts before |
| ByteStrings.InRange | src/lib.rs:81 | the bounds of `start..end`: `start <= k` and `k < end`, so the start is included and the end excluded |
| ByteStrings.LessIrreflexive | src/lib.rs:81 | no key sorts before itself |
| ByteStrings.LessTransitive | src/lib.rs:81 | the key order is transitive |
| ByteStrings.LessTrichotomy | src/lib.rs:81 | any two keys are equal or one sorts before the other |
| ByteStrings.LessAsymmetric | src/lib.rs:81 | two keys never sort before each other |
| ByteStrings.LessEqTransitive | src/lib.rs:81 | the non-strict order is transitive |
| ByteStrings.LessCharacterization | src/lib.rs:81 | `a < b` exactly when `a` is a proper prefix of `b` or the first differing byte is smaller in `a` |
| ByteStrings.LessCommonPrefix | src/lib.rs:81 | keys sharing a prefix are ordered by what follows the prefix |
| ByteStrings.LeastExists | src/lib.rs:81 | every non-empty finite key set has a least key |
| ByteStrings.SortedKeys | src/lib.rs:81 | the ascending enumeration holds exactly the keys of the set, each once |
| ByteStrings.SortedKeysIncreasing | src/lib.rs:81 | the enumeration is strictly ascending |
| ByteStrings.SortedUnique | src/lib.rs:81 | two strictly ascending sequences with the same elements are equal |
| ByteStrings.SortedKeysUnfold | src/lib.rs:81 | the enumeration starts with the least key, followed by the enumeration of the rest |
| Usage.BasicUsage | examples/basic_usage.rs:12-66 | after the save, the load returns the saved account; after the update, the load returns the updated account; after the remove, the load returns `Ok(None)` |
| Usage.RemoveTwice | src/lib.rs:99-102 | removing a key twice succeeds both times and leaves the same store as removing it once |
| Usage.UpdateNeedsExistingKey | src/lib.rs:114-125 | `update` of a key never saved fails with that key's missing-key error; after a save, the same update succeeds and `load` returns the new value |
| Usage.KeyName | examples/range_usage.rs:19 | `format!("key_{}", i)` for a single digit, with the prefix as a parameter; `Usage.KeyBytes` and `Usage.KeyOrder` state its bytes and order |
| Usage.Item | examples/range_usage.rs:15-18 | the `Data` record of round `i`, named `name_i` with value `i`; `Usage.RangeUsage` states which of them the loads return |
| Usage.KeyBytes | examples/range_usage.rs:19 | the bytes of `key_i` are the prefix's bytes followed by the digit's ASCII byte |
| Usage.KeyOrder | examples/range_usage.rs:19 | single-digit keys with a common prefix sort by their digit, and are equal only for equal digits |
| Usage.ScriptKeys | examples/range_usage.rs:26 | the literal keys `key_0` and `key_9` are the keys the loop formats for 0 and 9 |
| Usage.TenKeysRange | examples/range_usage.rs:26 | on a store holding `key_0` .. `key_9`, the ascending keys of `[key_0, key_9)` are `key_0` .. `key_8` |
| Usage.SavedItemsContents | examples/range_usage.rs:14-20 | after n rounds of the save loop, the store holds exactly the first n records, each under its key |
| Usage.SaveItems | examples/range_usage.rs:14-20 | the save loop leaves the store holding exactly record i under `key_i` for i in 0..9 |
| Usage.ItemDecodes | examples/range_usage.rs:22 | each stored record decodes back to itself |
| Usage.ItemsDecode | examples/range_usage.rs:26 | every value of the script's store decodes, so the range load does not panic |
| Usage.DecodedItems | examples/range_usage.rs:26 | the values decoded from `key_0` .. `key_8`, in that order, are the first nine records |
| Usage.RangeOfItems | examples/range_usage.rs:26 | what `load_range` returns on the script's store is the first nine records |
| Usage.RangeUsage | examples/range_usage.rs:10-32 | the load of `key_0` returns record 0, and the range load returns records 0 .. 8 in key order |

## Left out

- Opening the database (`sled::open`) and its `expect` panic are file-system I/O and locking. The constructor takes the engine's initial contents instead.
- `db_name` is not modelled: no operation reads it.
- Engine errors are not modelled: the failures behind each `?` on `get`, `insert`, `remove`, `contains_key` and the range iterator. The engine is a foreign component, and the model's engine never fails. Durability, flushing, the on-disk layout and the release of the engine on drop are not modelled either.
- serde_json's JSON grammar and serde's derived implementations are foreign code. The codec is a parameter, and its round trip is the hypothesis `RoundTrips`. Each member that needs it takes it as a hypothesis, so no proof rests on an unproved axiom.
- Concurrency is not modelled, including the race between `contains_key` and `insert` in `update`. The model is single-threaded, so the check and the write happen together.
- AvlonDb.AvlonDB.LoadRange: requires `start <= end`. For `start > end`, sled defines the behaviour, and so the model does not.
- AvlonDb.AvlonDB.LoadRange: requires that every value in range decodes. The source panics on a value that does not (`unwrap`), so the model has no error result for that case.
- The `println!` output of the example programs is not modelled. The `Usage` scenarios state what each load returns instead.
- Usage.BasicUsage: the username is a parameter (the script's is `johndoe`), and the store starts empty. The proof does not depend on the literal, and a literal key would only make the proof slower.
- Usage.RangeUsage: the key prefix is a parameter (the script's is `key_`, see `Usage.ScriptKeys`), and the store starts empty, as with a fresh database file.
- AvlonDb.DbError.Message: the texts of `EncodingFailed` and `DecodingFailed` are placeholders. serde_json's error messages are not modelled, and a custom serializer's error could begin `Key '` too.
- Integer widths: `i32` fields are the `int32` newtype. No arithmetic is done on them.
