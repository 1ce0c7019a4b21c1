/** The AvlonDB façade: typed save / load / load-range / update / remove over
    an ordered, byte-keyed store. The engine (sled's `Db`) is modelled by its
    contents, a finite map from key bytes to value bytes; keys reach it as
    their UTF-8 bytes and values as the bytes a codec produced. */
module AvlonDb {
  import opened Wrappers
  import opened ByteStrings
  import Utf8
  import opened Serde

  /** What the engine holds: key bytes to value bytes. */
  type Store = map<Bytes, Bytes>

  /** The failures the façade reports. */
  datatype DbError =
    | EncodingFailed          // the value could not be serialized
    | DecodingFailed          // stored bytes are not a value of the requested type
    | KeyNotFound(key: string) // `update` on a key that is not stored
  {
    /** The error's text. For a missing key it is the text `update`
        formats, which names the key; the two serde errors get placeholder
        texts, since serde_json's own messages are not modelled. */
    function Message(): (r: string)
      ensures KeyNotFound? <==> |r| >= 5 && r[..5] == "Key '"
      ensures KeyNotFound? ==> 5 + |key| <= |r| && r[5..5 + |key|] == key
    {
      match this
      case EncodingFailed => var m := "encoding failed"; assert m[..5][0] == 'e'; m
      case DecodingFailed => var m := "decoding failed"; assert m[..5][0] == 'd'; m
      case KeyNotFound(k) => "Key '" + k + "' does not exist in the database."
    }
  }

  /** Outcome of an operation without a result payload (Rust's `Result<(), _>`). */
  datatype Outcome = Pass | Fail(error: DbError)

  /** Outcome of an operation with a result payload. */
  datatype Result<T> = Ok(value: T) | Err(error: DbError)

  /** Two missing-key errors carry the same message only for the same key. */
  lemma NotFoundMessageNamesKey(k1: string, k2: string)
    ensures KeyNotFound(k1).Message() == KeyNotFound(k2).Message() <==> k1 == k2
  {
    var m1, m2 := KeyNotFound(k1).Message(), KeyNotFound(k2).Message();
    if m1 == m2 {
      assert |k1| == |k2|;
      assert m1[5..5 + |k1|] == k1;
      assert m2[5..5 + |k2|] == k2;
    }
  }

  /** The stored keys of the half-open interval `[lo, hi)`. */
  function RangeKeys(m: Store, lo: Bytes, hi: Bytes): (ks: set<Bytes>)
    ensures ks <= m.Keys
  {
    set k | k in m && InRange(k, lo, hi)
  }

  /** A range whose end is its start holds no key: the end is excluded. */
  lemma EmptyRange(m: Store, k: Bytes)
    ensures RangeKeys(m, k, k) == {}
  {
    forall x | x in m ensures !InRange(x, k, k) {
      if Less(x, k) {
        LessAsymmetric(x, k);
        LessIrreflexive(x);
      }
    }
  }

  /** Adjacent half-open ranges partition the range they span. */
  lemma RangeSplit(m: Store, a: Bytes, b: Bytes, c: Bytes)
    requires LessEq(a, b) && LessEq(b, c)
    ensures RangeKeys(m, a, c) == RangeKeys(m, a, b) + RangeKeys(m, b, c)
    ensures RangeKeys(m, a, b) * RangeKeys(m, b, c) == {}
  {
    forall x | x in m ensures InRange(x, a, c) <==> InRange(x, a, b) || InRange(x, b, c) {
      LessTrichotomy(x, b);
      if InRange(x, a, b) {
        if b != c { LessTransitive(x, b, c); }
      }
      if InRange(x, b, c) {
        LessEqTransitive(a, b, x);
      }
    }
    forall x | x in m ensures !(InRange(x, a, b) && InRange(x, b, c)) {
      if Less(x, b) && LessEq(b, x) {
        if x == b { LessIrreflexive(x); } else { LessAsymmetric(x, b); }
      }
    }
  }

  /** Every stored value under the keys `ks` decodes. */
  ghost predicate AllDecode<T>(m: Store, ks: set<Bytes>, codec: Codec<T>) {
    forall k :: k in ks ==> k in m && codec.decode(m[k]).Some?
  }

  /** `vs` are the decoded values of the stored keys `ks`, position by position. */
  ghost predicate DecodedAt<T>(m: Store, codec: Codec<T>, ks: seq<Bytes>, vs: seq<T>) {
    |ks| == |vs| && forall i :: 0 <= i < |ks| ==> ks[i] in m && codec.decode(m[ks[i]]) == Some(vs[i])
  }

  /** Appending a stored key and its decoded value keeps the two aligned. */
  lemma DecodedAtPush<T>(m: Store, codec: Codec<T>, ks: seq<Bytes>, vs: seq<T>, k: Bytes, v: T)
    requires DecodedAt(m, codec, ks, vs)
    requires k in m && codec.decode(m[k]) == Some(v)
    ensures DecodedAt(m, codec, ks + [k], vs + [v])
  {
    forall i | 0 <= i < |ks| + 1
      ensures (ks + [k])[i] in m && codec.decode(m[(ks + [k])[i]]) == Some((vs + [v])[i])
    {
      if i < |ks| {
        assert (ks + [k])[i] == ks[i] && (vs + [v])[i] == vs[i];
      }
    }
  }

  /** Visiting the least pending key keeps the visited keys a prefix of the
      ascending enumeration of the range. */
  lemma ScanStep(inRange: set<Bytes>, visited: seq<Bytes>, pending: set<Bytes>, k: Bytes)
    requires IsLeast(k, pending)
    requires SortedKeys(inRange) == visited + SortedKeys(pending)
    ensures SortedKeys(inRange) == (visited + [k]) + SortedKeys(pending - {k})
  {
    SortedKeysUnfold(pending, k);
  }

  /** The façade: the engine handle `client` and the typed operations on it.
      `db_name` is not modelled: no operation reads it. */
  class AvlonDB {
    var client: Store

    /** A façade over an engine that already holds `contents` (an empty
        map for a fresh database). Opening the on-disk store is not
        modelled. */
    constructor (contents: Store)
      ensures client == contents
    {
      client := contents;
    }

    /** `save`: encode, then insert unconditionally (an upsert). If encoding
        fails the insert is never reached. */
    method Save<T(!new)>(key: string, value: T, codec: Codec<T>) returns (r: Outcome)
      modifies this
      ensures codec.encode(value).None? ==> r == Fail(EncodingFailed) && client == old(client)
      ensures codec.encode(value).Some? ==>
                r == Pass && client == old(client)[Utf8.Encode(key) := codec.encode(value).value]
    {
      var serialized := codec.encode(value);
      if serialized.None? {
        return Fail(EncodingFailed);
      }
      client := client[Utf8.Encode(key) := serialized.value];
      r := Pass;
    }

    /** `load`: absent is `Ok(None)`, present and decodable is the decoded
        value, present but undecodable is a decoding error. */
    function Load<T>(key: string, codec: Codec<T>): (r: Result<Option<T>>)
      reads this
      ensures r == Ok(None) <==> Utf8.Encode(key) !in client
      ensures r.Ok? && r.value.Some? ==>
                Utf8.Encode(key) in client && codec.decode(client[Utf8.Encode(key)]) == r.value
      ensures r.Err? <==> Utf8.Encode(key) in client && codec.decode(client[Utf8.Encode(key)]).None?
      ensures r.Err? ==> r.error == DecodingFailed
    {
      var k := Utf8.Encode(key);
      if k in client then
        match codec.decode(client[k])
        case Some(v) => Ok(Some(v))
        case None => Err(DecodingFailed)
      else
        Ok(None)
    }

    /** Once `save` or `update` has written the encoding of `value` under
        `key`, `load` with a codec that round-trips returns `value`. */
    lemma LoadAfterWrite<T(!new)>(key: string, value: T, codec: Codec<T>)
      requires RoundTrips(codec) && codec.encode(value).Some?
      requires Utf8.Encode(key) in client && client[Utf8.Encode(key)] == codec.encode(value).value
      ensures Load(key, codec) == Ok(Some(value))
    {
    }

    /** `load_range`: the decoded values of the stored keys `k` with
        `start <= k < end` in byte order, ascending. A value that does not
        decode makes the source panic, so every value in range must decode. */
    method LoadRange<T>(startKey: string, endKey: string, codec: Codec<T>) returns (results: seq<T>)
      requires LessEq(Utf8.Encode(startKey), Utf8.Encode(endKey))
      requires AllDecode(client, RangeKeys(client, Utf8.Encode(startKey), Utf8.Encode(endKey)), codec)
      ensures |results| == |RangeKeys(client, Utf8.Encode(startKey), Utf8.Encode(endKey))|
      ensures forall i :: 0 <= i < |results| ==>
                var k := SortedKeys(RangeKeys(client, Utf8.Encode(startKey), Utf8.Encode(endKey)))[i];
                codec.decode(client[k]) == Some(results[i])
    {
      var inRange := RangeKeys(client, Utf8.Encode(startKey), Utf8.Encode(endKey));
      results := DecodeAscending(inRange, codec);
    }

    /** The loop of `load_range` over the engine's range iterator, which
        yields the keys of `keys` in ascending order, each step the least
        key not yet visited; each value is decoded as it is reached. */
    method DecodeAscending<T>(keys: set<Bytes>, codec: Codec<T>) returns (results: seq<T>)
      requires AllDecode(client, keys, codec)
      ensures |results| == |keys|
      ensures forall i :: 0 <= i < |results| ==> codec.decode(client[SortedKeys(keys)[i]]) == Some(results[i])
    {
      var pending := keys;
      ghost var visited: seq<Bytes> := [];
      results := [];
      while pending != {}
        invariant pending <= keys
        invariant SortedKeys(keys) == visited + SortedKeys(pending)
        invariant DecodedAt(client, codec, visited, results)
        decreases |pending|
      {
        LeastExists(pending);
        var k :| IsLeast(k, pending);
        ScanStep(keys, visited, pending, k);
        var item := codec.decode(client[k]).value;
        DecodedAtPush(client, codec, visited, results, k, item);
        results := results + [item];
        visited := visited + [k];
        pending := pending - {k};
      }
      assert visited == SortedKeys(keys);
    }

    /** `remove`: delete the key if present; removing an absent key is not
        an error and changes nothing. */
    method Remove(key: string) returns (r: Outcome)
      modifies this
      ensures r == Pass
      ensures client == old(client) - {Utf8.Encode(key)}
      ensures Utf8.Encode(key) !in old(client) ==> client == old(client)
    {
      client := client - {Utf8.Encode(key)};
      r := Pass;
    }

    /** `update`: check that the key is stored, then encode and overwrite.
        A missing key is reported as such before any encoding is tried. */
    method Update<T(!new)>(key: string, newValue: T, codec: Codec<T>) returns (r: Outcome)
      modifies this
      ensures Utf8.Encode(key) !in old(client) ==> r == Fail(KeyNotFound(key)) && client == old(client)
      ensures Utf8.Encode(key) in old(client) && codec.encode(newValue).None? ==>
                r == Fail(EncodingFailed) && client == old(client)
      ensures Utf8.Encode(key) in old(client) && codec.encode(newValue).Some? ==>
                r == Pass && client == old(client)[Utf8.Encode(key) := codec.encode(newValue).value]
      ensures client.Keys == old(client).Keys
    {
      var k := Utf8.Encode(key);
      if k in client {
        var serialized := codec.encode(newValue);
        if serialized.None? {
          return Fail(EncodingFailed);
        }
        client := client[k := serialized.value];
        r := Pass;
      } else {
        r := Fail(KeyNotFound(key));
      }
    }
  }
}
