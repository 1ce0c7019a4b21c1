/** The repository's two usage scripts, replayed on a database that starts
    empty, with what each of their loads returns. */
module Usage {
  import opened Wrappers
  import opened ByteStrings
  import Utf8
  import opened Serde
  import opened AvlonDb

  newtype int32 = x: int | -0x8000_0000 <= x < 0x8000_0000

  /** The record of the basic script. */
  datatype Account = Account(username: string, password: string, age: int32)

  /** The record of the range script. */
  datatype Data = Data(name: string, value: int32)

  /** Save, load, update, load, remove, load: the basic script, whose
      account has the username "johndoe" and is saved under it. Both
      accounts serialize, so every step succeeds. */
  method BasicUsage(codec: Codec<Account>, username: string)
    returns (loaded: Result<Option<Account>>, reloaded: Result<Option<Account>>,
             afterRemoval: Result<Option<Account>>)
    requires RoundTrips(codec)
    requires forall a :: codec.encode(a).Some?
    ensures loaded == Ok(Some(Account(username, "secretpassword", 30)))
    ensures reloaded == Ok(Some(Account("joker", "123654987", 99)))
    ensures afterRemoval == Ok(None)
  {
    var account := Account(username, "secretpassword", 30);
    var db := new AvlonDB(map[]);
    var saved := db.Save(account.username, account, codec);
    loaded := db.Load(username, codec);
    var updatedAccount := Account("joker", "123654987", 99);
    var updated := db.Update(username, updatedAccount, codec);
    reloaded := db.Load(username, codec);
    var removed := db.Remove(username);
    afterRemoval := db.Load(username, codec);
  }

  /** Removing a key twice succeeds both times and leaves the same store as
      removing it once. */
  method RemoveTwice(contents: Store, key: string)
    returns (first: Outcome, second: Outcome, remaining: Store)
    ensures first == Pass && second == Pass
    ensures remaining == contents - {Utf8.Encode(key)}
  {
    var db := new AvlonDB(contents);
    first := db.Remove(key);
    second := db.Remove(key);
    remaining := db.client;
  }

  /** Updating a key that was never saved fails and names the key; after a
      save the same update succeeds and a load sees the new value. */
  method UpdateNeedsExistingKey<T(!new)>(codec: Codec<T>, oldValue: T, newValue: T)
    returns (missing: Outcome, present: Outcome, loaded: Result<Option<T>>)
    requires RoundTrips(codec)
    requires codec.encode(oldValue).Some? && codec.encode(newValue).Some?
    ensures missing == Fail(KeyNotFound("missing_key"))
    ensures present == Pass
    ensures loaded == Ok(Some(newValue))
  {
    var db := new AvlonDB(map[]);
    missing := db.Update("missing_key", newValue, codec);
    var saved := db.Save("missing_key", oldValue, codec);
    present := db.Update("missing_key", newValue, codec);
    loaded := db.Load("missing_key", codec);
  }

  function Digit(i: nat): char
    requires i < 10
  {
    ('0' as int + i) as char
  }

  /** `format!("{}{}", prefix, i)` for a single digit; the script's
      prefix is "key_". */
  function KeyName(prefix: string, i: nat): string
    requires i < 10
  {
    prefix + [Digit(i)]
  }

  /** The record saved under `key_i`. */
  function Item(i: nat): Data
    requires i < 10
  {
    Data("name_" + [Digit(i)], i as int32)
  }

  /** `key_i` as bytes: the common prefix, then one ASCII digit. */
  lemma KeyBytes(p: string, i: nat)
    requires i < 10
    ensures Utf8.Encode(KeyName(p, i)) == Utf8.Encode(p) + [(48 + i) as byte]
  {
    Utf8.EncodeAppend(p, [Digit(i)]);
    Utf8.EncodeAsciiChar(Digit(i));
  }

  /** Single-digit keys sort by their digit. */
  lemma KeyOrder(p: string, i: nat, j: nat)
    requires i < 10 && j < 10
    ensures Less(Utf8.Encode(KeyName(p, i)), Utf8.Encode(KeyName(p, j))) <==> i < j
    ensures Utf8.Encode(KeyName(p, i)) == Utf8.Encode(KeyName(p, j)) <==> i == j
  {
    KeyBytes(p, i);
    KeyBytes(p, j);
    var bytes := Utf8.Encode(p);
    LessCommonPrefix(bytes, [(48 + i) as byte], [(48 + j) as byte]);
    if Utf8.Encode(KeyName(p, i)) == Utf8.Encode(KeyName(p, j)) {
      assert (bytes + [(48 + i) as byte])[|bytes|] == (bytes + [(48 + j) as byte])[|bytes|];
    }
  }

  /** The literal keys of the script are the ones its loop formats. */
  lemma ScriptKeys()
    ensures KeyName("key_", 0) == "key_0" && KeyName("key_", 9) == "key_9"
  {
  }

  /** In a store holding exactly `key_0` .. `key_9`, the range from `key_0`
      to `key_9` holds `key_0` .. `key_8`, and that is their ascending order. */
  lemma TenKeysRange(p: string, m: Store)
    requires m.Keys == set j | 0 <= j < 10 :: Utf8.Encode(KeyName(p, j))
    ensures SortedKeys(RangeKeys(m, Utf8.Encode(KeyName(p, 0)), Utf8.Encode(KeyName(p, 9))))
            == seq(9, j requires 0 <= j < 9 => Utf8.Encode(KeyName(p, j)))
  {
    var lo, hi := Utf8.Encode(KeyName(p, 0)), Utf8.Encode(KeyName(p, 9));
    var expected := seq(9, j requires 0 <= j < 9 => Utf8.Encode(KeyName(p, j)));
    forall k ensures k in RangeKeys(m, lo, hi) <==> k in expected {
      if k in m {
        var j :| 0 <= j < 10 && k == Utf8.Encode(KeyName(p, j));
        KeyOrder(p, 0, j);
        KeyOrder(p, j, 9);
        if j < 9 { assert k == expected[j]; }
      }
      if k in expected {
        var j :| 0 <= j < 9 && k == expected[j];
        KeyOrder(p, 0, j);
        KeyOrder(p, j, 9);
      }
    }
    forall i, j | 0 <= i < j < |expected| ensures Less(expected[i], expected[j]) {
      KeyOrder(p, i, j);
    }
    SortedKeysIncreasing(RangeKeys(m, lo, hi));
    SortedUnique(SortedKeys(RangeKeys(m, lo, hi)), expected);
  }

  /** The store holds `Item(j)`, encoded, under `key_j` for j in 0..9, and nothing else. */
  ghost predicate ItemsStored(p: string, m: Store, codec: Codec<Data>) {
    && m.Keys == (set j | 0 <= j < 10 :: Utf8.Encode(KeyName(p, j)))
    && forall j :: 0 <= j < 10 ==> codec.encode(Item(j)) == Some(m[Utf8.Encode(KeyName(p, j))])
  }

  /** The store after the first `n` rounds of the script's loop. */
  ghost function SavedItems(p: string, n: nat, codec: Codec<Data>): Store
    requires n <= 10
    requires forall d :: codec.encode(d).Some?
  {
    if n == 0 then map[]
    else SavedItems(p, n - 1, codec)[Utf8.Encode(KeyName(p, n - 1)) := codec.encode(Item(n - 1)).value]
  }

  /** After `n` rounds the store holds exactly the first `n` items. */
  lemma {:induction false} SavedItemsContents(p: string, n: nat, codec: Codec<Data>)
    requires n <= 10
    requires forall d :: codec.encode(d).Some?
    ensures SavedItems(p, n, codec).Keys == set j | 0 <= j < n :: Utf8.Encode(KeyName(p, j))
    ensures forall j :: 0 <= j < n ==>
              codec.encode(Item(j)) == Some(SavedItems(p, n, codec)[Utf8.Encode(KeyName(p, j))])
  {
    if n > 0 {
      SavedItemsContents(p, n - 1, codec);
      forall j | 0 <= j < n - 1 ensures Utf8.Encode(KeyName(p, j)) != Utf8.Encode(KeyName(p, n - 1)) {
        KeyOrder(p, j, n - 1);
      }
    }
  }

  /** The script's first loop: `Item(i)` saved under `key_i` for i in 0..9. */
  method SaveItems(p: string, db: AvlonDB, codec: Codec<Data>)
    requires db.client == map[]
    requires forall d :: codec.encode(d).Some?
    modifies db
    ensures ItemsStored(p, db.client, codec)
  {
    for i := 0 to 10
      invariant db.client == SavedItems(p, i, codec)
    {
      var saved := db.Save(KeyName(p, i), Item(i), codec);
    }
    SavedItemsContents(p, 10, codec);
  }

  /** A stored item decodes back to itself. */
  lemma ItemDecodes(p: string, m: Store, codec: Codec<Data>, j: nat)
    requires RoundTrips(codec) && (forall d :: codec.encode(d).Some?)
    requires ItemsStored(p, m, codec)
    requires j < 10
    ensures codec.decode(m[Utf8.Encode(KeyName(p, j))]) == Some(Item(j))
  {
  }

  /** Every value of the script's store decodes. */
  lemma ItemsDecode(p: string, m: Store, codec: Codec<Data>)
    requires RoundTrips(codec) && (forall d :: codec.encode(d).Some?)
    requires ItemsStored(p, m, codec)
    ensures AllDecode(m, m.Keys, codec)
  {
    forall k | k in m ensures codec.decode(m[k]).Some? {
      var j :| 0 <= j < 10 && k == Utf8.Encode(KeyName(p, j));
      ItemDecodes(p, m, codec, j);
    }
  }

  /** Values that decode from the stored values of `key_0` .. `key_8`, in
      that order, are the first nine items. */
  lemma DecodedItems(p: string, m: Store, codec: Codec<Data>, ks: seq<Bytes>, results: seq<Data>)
    requires RoundTrips(codec) && (forall d :: codec.encode(d).Some?)
    requires ItemsStored(p, m, codec)
    requires ks == seq(9, j requires 0 <= j < 9 => Utf8.Encode(KeyName(p, j)))
    requires |results| == |ks|
    requires forall i :: 0 <= i < |results| ==> codec.decode(m[ks[i]]) == Some(results[i])
    ensures results == seq(9, i requires 0 <= i < 9 => Item(i))
  {
    forall i | 0 <= i < 9 ensures results[i] == Item(i) {
      assert ks[i] == Utf8.Encode(KeyName(p, i));
      ItemDecodes(p, m, codec, i);
    }
  }

  /** What the range scan returns on the script's store is the first nine items. */
  lemma RangeOfItems(p: string, m: Store, codec: Codec<Data>, results: seq<Data>)
    requires RoundTrips(codec) && (forall d :: codec.encode(d).Some?)
    requires ItemsStored(p, m, codec)
    requires |results| == |RangeKeys(m, Utf8.Encode(KeyName(p, 0)), Utf8.Encode(KeyName(p, 9)))|
    requires forall i :: 0 <= i < |results| ==>
               var k := SortedKeys(RangeKeys(m, Utf8.Encode(KeyName(p, 0)), Utf8.Encode(KeyName(p, 9))))[i];
               codec.decode(m[k]) == Some(results[i])
    ensures results == seq(9, i requires 0 <= i < 9 => Item(i))
  {
    TenKeysRange(p, m);
    var ks := SortedKeys(RangeKeys(m, Utf8.Encode(KeyName(p, 0)), Utf8.Encode(KeyName(p, 9))));
    DecodedItems(p, m, codec, ks, results);
  }

  /** Ten records under `key_0` .. `key_9`, then a load of `key_0` and the
      range from `key_0` to `key_9`: the end key is excluded, so the range
      yields the nine records of `key_0` .. `key_8`, in key order. */
  method RangeUsage(p: string, codec: Codec<Data>) returns (first: Result<Option<Data>>, results: seq<Data>)
    requires RoundTrips(codec)
    requires forall d :: codec.encode(d).Some?
    ensures first == Ok(Some(Item(0)))
    ensures results == seq(9, i requires 0 <= i < 9 => Item(i))
  {
    var db := new AvlonDB(map[]);
    SaveItems(p, db, codec);
    ItemsDecode(p, db.client, codec);
    // "key_0" and "key_9" (see ScriptKeys)
    var startKey, endKey := KeyName(p, 0), KeyName(p, 9);
    first := db.Load(startKey, codec);
    KeyOrder(p, 0, 9);
    results := db.LoadRange(startKey, endKey, codec);
    RangeOfItems(p, db.client, codec, results);
  }
}
