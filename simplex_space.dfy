/**
 * The locality-sensitive-hashing bucket index `SimplexSpace<T>`.
 *
 * An id and its vector go into the bucket named by the vector's hash, with
 * the codes masked to the current level of detail. Three maps are kept in
 * step. `idSetMap` gives each id's last bucket. `hashSetMap` gives the ids of
 * each bucket. `vectorSetMap` gives the vectors of each bucket. Re-adding an id
 * moves its `idSetMap` entry but leaves it in its old bucket too, so a bucket
 * may hold ids whose current bucket is elsewhere.
 */
module Neighborhood {
  import opened Wrappers
  import opened Lod

  /** A vector of the original space, read element by element (index order). */
  type Vector = seq<real>

  /** `Hash<T>` as a map key: equality is by value over the masked codes. */
  datatype HashKey = HashKey(codes: seq<bv32>)

  /** The pluggable hashing capability: `Hasher.hash` and `Hasher.unhash`. */
  datatype Hasher = Hasher(hash: seq<real> -> seq<bv32>, unhash: seq<bv32> -> seq<real>)

  /** `DistanceMeasure.distance` between two dense vectors. */
  type Measure = (Vector, Vector) -> real

  /** A Java `int` code read as a signed integer (its value when widened to `double`). */
  function Signed(c: bv32): (n: int)
  {
    if c < 0x8000_0000 then c as int else c as int - 0x1_0000_0000
  }

  /** No element at index n or beyond is non-zero: the vector fits a buffer of n values. */
  predicate FitsIn(v: Vector, n: nat)
  {
    forall i :: n <= i < |v| ==> v[i] == 0.0
  }

  /** The dense buffer `getValues` fills: v's elements below n, then zeros. */
  function Densify(v: Vector, n: nat): (d: seq<real>)
  {
    seq(n, i requires 0 <= i < n => if i < |v| then v[i] else 0.0)
  }

  /** Raw-mode coordinates: the first n codes as signed numbers. */
  function RawCoords(codes: seq<bv32>, n: nat): (d: seq<real>)
    requires n <= |codes|
  {
    seq(n, i requires 0 <= i < n => Signed(codes[i]) as real)
  }

  /**
   * The three maps agree. Every bucket has one code per dimension and holds
   * at least one id and one vector. Every id is in the bucket `idSetMap`
   * gives it, and the vector it was last added with is among that bucket's
   * vectors.
   */
  ghost predicate Indexed<T>(dims: nat, ids: map<T, HashKey>, buckets: map<HashKey, set<T>>,
                             vectors: map<HashKey, set<Vector>>, vectorOf: map<T, Vector>)
  {
    && buckets.Keys == vectors.Keys
    && vectorOf.Keys == ids.Keys
    && (forall h :: h in buckets ==> |h.codes| == dims && buckets[h] != {} && vectors[h] != {})
    && (forall p :: p in ids ==>
          && ids[p] in buckets
          && p in buckets[ids[p]]
          && vectorOf[p] in vectors[ids[p]])
  }

  /** `addVector`'s three map updates keep the maps in step. */
  lemma IndexedInsert<T>(dims: nat, ids: map<T, HashKey>, buckets: map<HashKey, set<T>>,
                         vectors: map<HashKey, set<Vector>>, vectorOf: map<T, Vector>,
                         payload: T, v: Vector, h: HashKey)
    requires Indexed(dims, ids, buckets, vectors, vectorOf)
    requires |h.codes| == dims
    ensures Indexed(dims, ids[payload := h],
                    buckets[h := (if h in buckets then buckets[h] else {}) + {payload}],
                    vectors[h := (if h in vectors then vectors[h] else {}) + {v}],
                    vectorOf[payload := v])
  {
  }

  class SimplexSpace<T(==)> {
    const hasher: Hasher
    const dimensions: nat
    const measure: Option<Measure>
    var doUnhash: bool
    var idSetMap: map<T, HashKey>
    var hashSetMap: map<HashKey, set<T>>
    var vectorSetMap: map<HashKey, set<Vector>>
    var lod: int
    var lodMask: bv32
    /** The vector each id was last added with. */
    ghost var vectorOf: map<T, Vector>

    /** The hasher yields one code per dimension. */
    ghost predicate HasherFits()
    {
      forall x :: |hasher.hash(x)| == dimensions
    }

    /** The invariant the insertion path keeps over the three maps. */
    ghost predicate Valid()
      reads this
    {
      HasherFits() && Indexed(dimensions, idSetMap, hashSetMap, vectorSetMap, vectorOf)
    }

    /** The stored mask selects exactly the bits below the stored level. */
    ghost predicate MaskMatchesLevel()
      reads this
    {
      lodMask == LowBits(lod)
    }

    /** The space without a default distance measure: `measure` is null. */
    constructor (hasher: Hasher, dimensions: nat)
      requires forall x :: |hasher.hash(x)| == dimensions
      ensures Valid()
      ensures this.hasher == hasher && this.dimensions == dimensions && measure == None
      ensures MaskMatchesLevel()
      ensures doUnhash && lod == 0 && lodMask == 0
      ensures idSetMap == map[] && hashSetMap == map[] && vectorSetMap == map[]
    {
      this.hasher := hasher;
      this.dimensions := dimensions;
      this.measure := None;
      doUnhash := true;
      idSetMap, hashSetMap, vectorSetMap := map[], map[], map[];
      lod, lodMask := 0, 0;
      vectorOf := map[];
    }

    constructor WithMeasure(hasher: Hasher, dimensions: nat, measure: Measure)
      requires forall x :: |hasher.hash(x)| == dimensions
      ensures Valid()
      ensures this.hasher == hasher && this.dimensions == dimensions && this.measure == Some(measure)
      ensures MaskMatchesLevel()
      ensures doUnhash && lod == 0 && lodMask == 0
      ensures idSetMap == map[] && hashSetMap == map[] && vectorSetMap == map[]
    {
      this.hasher := hasher;
      this.dimensions := dimensions;
      this.measure := Some(measure);
      doUnhash := true;
      idSetMap, hashSetMap, vectorSetMap := map[], map[], map[];
      lod, lodMask := 0, 0;
      vectorOf := map[];
    }

    /** The bucket `addVector` puts v in at the current level of detail. */
    function KeyOf(v: Vector): (h: HashKey)
      reads this
    {
      HashKey(MaskCodes(hasher.hash(Densify(v, dimensions)), lodMask))
    }

    /**
     * `addVector`: hash v at the current level of detail and record payload
     * and v in that bucket. A non-zero element at an index >= dimensions
     * overruns the buffer, and the call throws before it changes anything.
     */
    method AddVector(payload: T, v: Vector) returns (r: Outcome)
      requires Valid()
      modifies this`idSetMap, this`hashSetMap, this`vectorSetMap, this`vectorOf
      ensures Valid()
      ensures doUnhash == old(doUnhash) && lod == old(lod) && lodMask == old(lodMask)
      ensures r == if FitsIn(v, dimensions) then Pass else Fail(IndexOutOfBounds)
      ensures r.Fail? ==>
        idSetMap == old(idSetMap) && hashSetMap == old(hashSetMap) && vectorSetMap == old(vectorSetMap)
      ensures r.Pass? ==>
        var h := old(KeyOf(v));
        && idSetMap == old(idSetMap)[payload := h]
        && hashSetMap == old(hashSetMap)[h := (if h in old(hashSetMap) then old(hashSetMap)[h] else {}) + {payload}]
        && vectorSetMap == old(vectorSetMap)[h := (if h in old(vectorSetMap) then old(vectorSetMap)[h] else {}) + {v}]
        && |hashSetMap| == |old(hashSetMap)| + (if h in old(hashSetMap) then 0 else 1)
    {
      ghost var key := KeyOf(v);
      var values := new real[dimensions](_ => 0.0);
      var ok := GetValues(v, values);
      if !ok {
        return Fail(IndexOutOfBounds);
      }
      assert values[..] == Densify(v, dimensions);
      var hash := GetHashLOD(values);
      assert hash == key;
      IndexedInsert(dimensions, idSetMap, hashSetMap, vectorSetMap, vectorOf, payload, v, hash);
      var hashKeys: set<T>, vectorKeys: set<Vector>;
      if hash !in hashSetMap {
        hashKeys, vectorKeys := {}, {};
      } else {
        hashKeys, vectorKeys := hashSetMap[hash], vectorSetMap[hash];
      }
      idSetMap := idSetMap[payload := hash];
      vectorOf := vectorOf[payload := v];
      hashSetMap := hashSetMap[hash := hashKeys + {payload}];
      vectorSetMap := vectorSetMap[hash := vectorKeys + {v}];
      return Pass;
    }

    /**
     * `getHashLOD`: the hasher's codes for the buffer, each with the mask
     * bits of the current level cleared and its other bits kept.
     */
    method GetHashLOD(values: array<real>) returns (hash: HashKey)
      requires HasherFits()
      ensures hash.codes == MaskCodes(hasher.hash(values[..]), lodMask)
      ensures |hash.codes| == dimensions
      ensures forall i :: 0 <= i < dimensions ==> ClearedBy(hash.codes[i], hasher.hash(values[..])[i], lodMask)
    {
      var codes := hasher.hash(values[..]);
      var hashes := new bv32[|codes|](i requires 0 <= i < |codes| => codes[i]);
      assert hashes[..] == MaskPrefix(codes, lodMask, 0);
      for i := 0 to hashes.Length
        invariant hashes[..] == MaskPrefix(codes, lodMask, i)
      {
        hashes[i] := Mask(hashes[i], lodMask);
      }
      hash := HashKey(hashes[..]);
      MaskCodesMeaning(codes, lodMask);
    }

    /**
     * `getValues`: copy v's non-zero elements into the buffer, in index
     * order. It throws at a non-zero element whose index is past the buffer.
     */
    static method GetValues(v: Vector, values: array<real>) returns (ok: bool)
      modifies values
      ensures ok <==> FitsIn(v, values.Length)
      ensures ok ==> forall i :: 0 <= i < values.Length ==>
        values[i] == if i < |v| && v[i] != 0.0 then v[i] else old(values[i])
    {
      var i := 0;
      while i < |v|
        invariant 0 <= i <= |v|
        invariant forall k :: values.Length <= k < i ==> v[k] == 0.0
        invariant forall k :: 0 <= k < values.Length ==>
          values[k] == if k < i && v[k] != 0.0 then v[k] else old(values[k])
      {
        if v[i] != 0.0 {
          if i >= values.Length {
            return false;
          }
          values[i] := v[i];
        }
        i := i + 1;
      }
      return true;
    }

    /**
     * `findNeighbors(long)`: the other ids in the bucket of `other`, or null
     * when `other` was never added.
     */
    method FindNeighbors(other: T) returns (r: Option<set<T>>)
      requires Valid()
      ensures r.None? <==> other !in idSetMap
      ensures r.Some? ==> r.value == hashSetMap[idSetMap[other]] - {other}
      ensures r.Some? ==> other !in r.value
    {
      if other !in idSetMap {
        return None;
      }
      var hash := idSetMap[other];
      var hashKeys := hashSetMap[hash];
      var others: set<T> := {};
      var rest := hashKeys;
      while rest != {}
        invariant rest <= hashKeys
        invariant others == (hashKeys - rest) - {other}
        decreases |rest|
      {
        var otherID :| otherID in rest;
        if otherID != other {
          others := others + {otherID};
        }
        rest := rest - {otherID};
      }
      return Some(others);
    }

    /**
     * `findNeighbors(T)`: the loop adds `other` back to its own bucket, which
     * already holds it, and the result map is never filled in.
     */
    method FindNeighborsMap(other: T) returns (r: Option<map<T, set<T>>>)
      requires Valid()
      modifies this`hashSetMap
      ensures Valid()
      ensures hashSetMap == old(hashSetMap)
      ensures r == if other in idSetMap then Some(map[]) else None
    {
      if other !in idSetMap {
        return None;
      }
      var hash := idSetMap[other];
      var rest := hashSetMap[hash];
      while rest != {}
        invariant hashSetMap == old(hashSetMap)
        invariant hash in hashSetMap && other in hashSetMap[hash]
        decreases |rest|
      {
        var otherID :| otherID in rest;
        if otherID != other {
          assert hashSetMap[hash] + {other} == hashSetMap[hash];
          hashSetMap := hashSetMap[hash := hashSetMap[hash] + {other}];
          assert hashSetMap == old(hashSetMap);
        }
        rest := rest - {otherID};
      }
      return Some(map[]);
    }

    /** The measure `getDistance` applies: the argument, else the space's own. */
    function ChosenMeasure(m: Option<Measure>): Option<Measure>
      reads this
    {
      if m.Some? then m else measure
    }

    /**
     * What `hashDistance` computes for two keys. In raw mode a second key
     * shorter than the first overruns it. A missing measure is a null
     * dereference.
     */
    function KeyDistance(h1: HashKey, h2: HashKey, m: Option<Measure>): (d: Result<real>)
      reads this
      requires |h1.codes| == dimensions
    {
      if !doUnhash && |h2.codes| < |h1.codes| then Thrown(IndexOutOfBounds)
      else if m.None? then Thrown(NullPointer)
      else if doUnhash then Ok(m.value(hasher.unhash(h1.codes), hasher.unhash(h2.codes)))
      else Ok(m.value(RawCoords(h1.codes, dimensions), RawCoords(h2.codes, dimensions)))
    }

    /** `hashDistance`: compare two buckets' coordinates under a measure. */
    method HashDistance(h1: HashKey, h2: HashKey, m: Option<Measure>) returns (r: Result<real>)
      requires |h1.codes| == dimensions
      ensures r == KeyDistance(h1, h2, m)
    {
      var c1: seq<real>, c2: seq<real>;
      if doUnhash {
        c1, c2 := hasher.unhash(h1.codes), hasher.unhash(h2.codes);
      } else {
        var d1 := new real[dimensions](_ => 0.0);
        var d2 := new real[dimensions](_ => 0.0);
        for i := 0 to |h1.codes|
          invariant i == 0 || i <= |h2.codes|
          invariant forall k :: 0 <= k < i ==> d1[k] == Signed(h1.codes[k]) as real
          invariant forall k :: 0 <= k < i ==> d2[k] == Signed(h2.codes[k]) as real
        {
          if i >= |h2.codes| {
            return Thrown(IndexOutOfBounds);
          }
          d1[i] := Signed(h1.codes[i]) as real;
          d2[i] := Signed(h2.codes[i]) as real;
        }
        c1, c2 := d1[..], d2[..];
        assert c1 == RawCoords(h1.codes, dimensions);
        assert c2 == RawCoords(h2.codes, dimensions);
      }
      if m.None? {
        return Thrown(NullPointer);
      }
      return Ok(m.value(c1, c2));
    }

    /**
     * `getDistance(id1, id2, measure)`: -1 when either id is unknown, else
     * the distance between their buckets.
     */
    method GetDistance(id1: T, id2: T, m: Option<Measure>) returns (r: Result<real>)
      requires Valid()
      ensures id1 !in idSetMap || id2 !in idSetMap ==> r == Ok(-1.0)
      ensures id1 in idSetMap && id2 in idSetMap ==>
        r == KeyDistance(idSetMap[id1], idSetMap[id2], ChosenMeasure(m))
    {
      var chosen := ChosenMeasure(m);
      if id1 !in idSetMap || id2 !in idSetMap {
        return Ok(-1.0);
      }
      r := HashDistance(idSetMap[id1], idSetMap[id2], chosen);
    }

    /**
     * `getDistance(id1, id2, otherSpace, measure)`: as `GetDistance`, with id2
     * looked up in the other space. The two spaces' dimensions are not
     * compared.
     */
    method GetDistanceAcross(id1: T, id2: T, otherSpace: SimplexSpace<T>, m: Option<Measure>) returns (r: Result<real>)
      requires Valid()
      ensures id1 !in idSetMap || id2 !in otherSpace.idSetMap ==> r == Ok(-1.0)
      ensures id1 in idSetMap && id2 in otherSpace.idSetMap ==>
        r == KeyDistance(idSetMap[id1], otherSpace.idSetMap[id2], ChosenMeasure(m))
    {
      var chosen := ChosenMeasure(m);
      if id1 !in idSetMap || id2 !in otherSpace.idSetMap {
        return Ok(-1.0);
      }
      r := HashDistance(idSetMap[id1], otherSpace.idSetMap[id2], chosen);
    }

    /** `setLOD`: store the level and build its mask bit by bit. */
    method SetLOD(k: int)
      requires Valid()
      modifies this`lod, this`lodMask
      ensures Valid()
      ensures MaskMatchesLevel()
      ensures lod == k && lodMask == LowBits(k)
    {
      lod := k;
      lodMask := LevelMask(k);
    }

    /** `getNumHashes`: the number of buckets, which is also the number of vector buckets. */
    function GetNumHashes(): (n: nat)
      reads this
      requires Valid()
      ensures n == |vectorSetMap|
      ensures idSetMap != map[] ==> n > 0
    {
      assert |hashSetMap.Keys| == |vectorSetMap.Keys|;
      if idSetMap != map[] then
        var p :| p in idSetMap;
        assert idSetMap[p] in hashSetMap.Keys;
        |hashSetMap|
      else
        |hashSetMap|
    }
  }
}
