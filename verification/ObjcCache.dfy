/**
 * The direct-mapped class cache and its use in `pl_async_objc_parse_objc2_class`: reading class_ro data with the cache
 * gives what reading without it gives.
 */
module ObjcCache {
  import opened Common

  const CACHE_SIZE := 1024

  /** The fields of class_rw that the parser uses. */
  datatype ClassRw = ClassRw(realized: bool, copiedRo: bool, dataRo: nat)

  /** The target's memory, which does not change: class_rw and class_ro data at an address. */
  datatype Target = Target(rwAt: nat -> Option<ClassRw>, roAt: nat -> Option<seq<uint8>>)

  /** An image, its mapped __objc_const section, and whether the class name that class_ro data points to can be read. */
  datatype Image = Image(contains: nat -> bool, mapped: nat -> Option<seq<uint8>>, nameReadable: seq<uint8> -> bool)

  /** The section is a mapping of the target's memory. */
  ghost predicate MapsTarget(t: Target, image: Image) {
    forall a: nat :: image.mapped(a).Some? ==> t.roAt(a) == image.mapped(a)
  }

  /** The low bits of the pointer are flags. */
  function DataPointer(dataRw: nat): nat {
    dataRw / 4 * 4
  }

  /** The class_ro data at `ro`, as it is read without the cache. */
  function ReadRo(t: Target, image: Image, rw: ClassRw): Option<seq<uint8>> {
    if rw.copiedRo || !image.contains(rw.dataRo) then t.roAt(rw.dataRo) else image.mapped(rw.dataRo)
  }

  /** With the cache the mapping comes first, and then the target. */
  function ReadCachedRo(t: Target, image: Image, ro: nat): Option<seq<uint8>> {
    if image.mapped(ro).Some? then image.mapped(ro) else t.roAt(ro)
  }

  function Checked(image: Image, bytes: seq<uint8>): Result<seq<uint8>> {
    if image.nameReadable(bytes) then Ok(bytes) else Err(EINVALID_DATA)
  }

  /** The parse without a cache. */
  function Uncached(t: Target, image: Image, dataRw: nat): Result<seq<uint8>> {
    match t.rwAt(DataPointer(dataRw))
    case None => Err(EINVALID_DATA)
    case Some(rw) =>
      if !rw.realized then Err(ENOTFOUND)
      else
        match ReadRo(t, image, rw)
        case None => Err(EINVALID_DATA)
        case Some(bytes) => Checked(image, bytes)
  }

  /** Keys and values; both are empty until the first value is stored. */
  datatype Cache = Cache(keys: seq<nat>, values: seq<nat>) {
    predicate Valid() {
      |keys| == |values| && (|keys| == 0 || |keys| == CACHE_SIZE)
    }

    function Lookup(key: nat): nat
      requires Valid()
    {
      if |keys| > 0 && keys[Index(key)] == key then values[Index(key)] else 0
    }

    /** `canAllocate` says whether the kernel has memory for the cache. An occupied bucket keeps its entry. */
    function Set(key: nat, value: nat, canAllocate: bool): (c: Cache)
      requires Valid()
      ensures c.Valid()
    {
      if |keys| == 0 && !canAllocate then this
      else
        var c := if |keys| == 0 then Cleared() else this;
        if c.keys[Index(key)] == 0 then Cache(c.keys[Index(key) := key], c.values[Index(key) := value]) else c
    }
  }

  function Index(key: nat): (i: nat)
    ensures i < CACHE_SIZE
  {
    (key / 4) % CACHE_SIZE
  }

  /** Fresh pages are zero. */
  function Cleared(): (c: Cache)
    ensures c.Valid() && |c.keys| == CACHE_SIZE
  {
    Cache(seq(CACHE_SIZE, _ => 0), seq(CACHE_SIZE, _ => 0))
  }

  datatype Parsed = Parsed(result: Result<seq<uint8>>, cache: Cache)

  /** The parse with the cache. */
  function Parse(t: Target, image: Image, cache: Cache, dataRw: nat, canAllocate: bool): (p: Parsed)
    requires cache.Valid()
    ensures p.cache.Valid()
  {
    var key := DataPointer(dataRw);
    var cached := cache.Lookup(key);
    if cached == 0 then
      match t.rwAt(key)
      case None => Parsed(Err(EINVALID_DATA), cache)
      case Some(rw) =>
        if !rw.realized then Parsed(Err(ENOTFOUND), cache)
        else
          match ReadRo(t, image, rw)
          case None => Parsed(Err(EINVALID_DATA), cache)
          case Some(bytes) => Parsed(Checked(image, bytes), cache.Set(key, rw.dataRo, canAllocate))
    else
      match ReadCachedRo(t, image, cached)
      case None => Parsed(Err(EINVALID_DATA), cache)
      case Some(bytes) => Parsed(Checked(image, bytes), cache)
  }

  class ObjcClassCache {
    var present: bool
    var keys: array<nat>
    var values: array<nat>

    ghost predicate Valid()
      reads this
    {
      present ==> keys.Length == CACHE_SIZE && values.Length == CACHE_SIZE && keys != values
    }

    ghost function Model(): (c: Cache)
      requires Valid()
      reads this, keys, values
      ensures c.Valid()
    {
      if present then Cache(keys[..], values[..]) else Cache([], [])
    }

    constructor ()
      ensures Valid() && Model() == Cache([], []) && fresh(keys) && fresh(values)
    {
      present := false;
      keys := new nat[0];
      values := new nat[0];
    }

    method CacheLookup(key: nat) returns (value: nat)
      requires Valid()
      ensures value == Model().Lookup(key)
    {
      if present {
        var index := Index(key);
        if keys[index] == key {
          return values[index];
        }
      }
      return 0;
    }

    method CacheSet(key: nat, value: nat, canAllocate: bool)
      requires Valid()
      modifies this, keys, values
      ensures Valid() && Model() == old(Model()).Set(key, value, canAllocate)
      ensures (keys == old(keys) || fresh(keys)) && (values == old(values) || fresh(values))
    {
      if !present {
        if !canAllocate {
          return;
        }
        keys := new nat[CACHE_SIZE](_ => 0);
        values := new nat[CACHE_SIZE](_ => 0);
        present := true;
        assert Model() == Cleared();
      }
      var index := Index(key);
      if keys[index] == 0 {
        keys[index] := key;
        values[index] := value;
      }
    }

    /** `pl_async_objc_parse_objc2_class`, up to the class_ro data. */
    method ParseClass(t: Target, image: Image, dataRw: nat, canAllocate: bool) returns (r: Result<seq<uint8>>)
      requires Valid()
      modifies this, keys, values
      ensures Valid() && Parsed(r, Model()) == Parse(t, image, old(Model()), dataRw, canAllocate)
    {
      var dataPtr := DataPointer(dataRw);
      var cachedRo := CacheLookup(dataPtr);
      var bytes: Option<seq<uint8>>;
      if cachedRo == 0 {
        var rw := t.rwAt(dataPtr);
        if rw.None? {
          return Err(EINVALID_DATA);
        }
        if !rw.value.realized {
          return Err(ENOTFOUND);
        }
        cachedRo := rw.value.dataRo;
        if rw.value.copiedRo || !image.contains(cachedRo) {
          bytes := t.roAt(cachedRo);
        } else {
          bytes := image.mapped(cachedRo);
        }
        if bytes.None? {
          return Err(EINVALID_DATA);
        }
        CacheSet(dataPtr, cachedRo, canAllocate);
      } else {
        bytes := image.mapped(cachedRo);
        if bytes.None? {
          bytes := t.roAt(cachedRo);
        }
        if bytes.None? {
          return Err(EINVALID_DATA);
        }
      }
      if !image.nameReadable(bytes.value) {
        return Err(EINVALID_DATA);
      }
      return Ok(bytes.value);
    }
  }

  // Transparency

  /** A non-zero value belongs to the key of its bucket, also to key 0 in a bucket that counts as empty. */
  ghost predicate Faithful(t: Target, c: Cache)
    requires c.Valid()
  {
    forall i {:trigger c.values[i]} :: 0 <= i < |c.keys| && c.values[i] != 0 ==>
      && Index(c.keys[i]) == i && t.rwAt(c.keys[i]).Some?
      && t.rwAt(c.keys[i]).value.realized && t.rwAt(c.keys[i]).value.dataRo == c.values[i]
  }

  lemma EmptyFaithful(t: Target)
    ensures Faithful(t, Cache([], []))
  {
  }

  lemma FaithfulLookup(t: Target, c: Cache, key: nat)
    requires c.Valid() && Faithful(t, c) && c.Lookup(key) != 0
    ensures t.rwAt(key).Some? && t.rwAt(key).value.realized && t.rwAt(key).value.dataRo == c.Lookup(key)
  {
  }

  lemma SetFaithful(t: Target, c: Cache, key: nat, rw: ClassRw, canAllocate: bool)
    requires c.Valid() && Faithful(t, c) && t.rwAt(key) == Some(rw) && rw.realized
    ensures Faithful(t, c.Set(key, rw.dataRo, canAllocate))
  {
    var start := if |c.keys| == 0 then Cleared() else c;
    assert Faithful(t, start);
  }

  lemma ParseFaithful(t: Target, image: Image, c: Cache, dataRw: nat, canAllocate: bool)
    requires c.Valid() && Faithful(t, c)
    ensures Faithful(t, Parse(t, image, c, dataRw, canAllocate).cache)
  {
    hide Faithful;
    var key := DataPointer(dataRw);
    if c.Lookup(key) == 0 && t.rwAt(key).Some? && t.rwAt(key).value.realized {
      SetFaithful(t, c, key, t.rwAt(key).value, canAllocate);
    }
  }

  /**
   * The results agree exactly unless the cached pointer saves a read that fails without the cache: class_ro data that
   * the image claims to contain, but that its mapped section does not, although the target's memory does.
   */
  lemma ParseAgreesIff(t: Target, image: Image, c: Cache, dataRw: nat, canAllocate: bool)
    requires c.Valid() && Faithful(t, c) && MapsTarget(t, image)
    ensures
      var key := DataPointer(dataRw);
      var r := Parse(t, image, c, dataRw, canAllocate).result;
      r == Uncached(t, image, dataRw) <==>
      !(&& c.Lookup(key) != 0 && t.rwAt(key).Some?
        && !t.rwAt(key).value.copiedRo && image.contains(c.Lookup(key))
        && image.mapped(c.Lookup(key)).None?
        && t.roAt(c.Lookup(key)).Some? && image.nameReadable(t.roAt(c.Lookup(key)).value))
  {
    hide Faithful;
    if c.Lookup(DataPointer(dataRw)) != 0 {
      FaithfulLookup(t, c, DataPointer(dataRw));
    }
  }

  datatype Request = Request(image: Image, dataRw: nat, canAllocate: bool)

  function ParseAll(t: Target, c: Cache, requests: seq<Request>): (r: Cache)
    requires c.Valid()
    ensures r.Valid()
    decreases requests
  {
    if requests == [] then c
    else ParseAll(t, Parse(t, requests[0].image, c, requests[0].dataRw, requests[0].canAllocate).cache, requests[1..])
  }

  lemma {:induction false} ParseAllFaithful(t: Target, c: Cache, requests: seq<Request>)
    requires c.Valid() && Faithful(t, c)
    ensures Faithful(t, ParseAll(t, c, requests))
    decreases requests
  {
    hide Faithful, Parse;
    if requests != [] {
      var q := requests[0];
      ParseFaithful(t, q.image, c, q.dataRw, q.canAllocate);
      ParseAllFaithful(t, Parse(t, q.image, c, q.dataRw, q.canAllocate).cache, requests[1..]);
    }
  }

  /**
   * After any parses across any images, what the cache finds is the pointer in memory: collisions and zero keys or
   * values are only ever misses.
   */
  lemma LookupFaithful(t: Target, requests: seq<Request>, key: nat)
    requires ParseAll(t, Cache([], []), requests).Lookup(key) != 0
    ensures
      var found := ParseAll(t, Cache([], []), requests).Lookup(key);
      t.rwAt(key).Some? && t.rwAt(key).value.realized && t.rwAt(key).value.dataRo == found
  {
    hide Faithful, ParseAll;
    EmptyFaithful(t);
    ParseAllFaithful(t, Cache([], []), requests);
    FaithfulLookup(t, ParseAll(t, Cache([], []), requests), key);
  }

  /**
   * After any sequence of parses across any images, whenever a parse without the cache succeeds, the parse with the
   * cache yields the same bytes; and an unrealized class is reported as such either way.
   */
  lemma CacheIsTransparent(t: Target, requests: seq<Request>, image: Image, dataRw: nat, canAllocate: bool)
    requires MapsTarget(t, image)
    ensures
      var r := Parse(t, image, ParseAll(t, Cache([], []), requests), dataRw, canAllocate).result;
      && (Uncached(t, image, dataRw).Ok? ==> r == Uncached(t, image, dataRw))
      && (r == Err(ENOTFOUND) <==> Uncached(t, image, dataRw) == Err(ENOTFOUND))
  {
    hide Faithful, ParseAll;
    EmptyFaithful(t);
    ParseAllFaithful(t, Cache([], []), requests);
    var c := ParseAll(t, Cache([], []), requests);
    if c.Lookup(DataPointer(dataRw)) != 0 {
      FaithfulLookup(t, c, DataPointer(dataRw));
    }
  }

  // What is read, and what is kept

  /** The two lowest bits of the class's data pointer are flags; the pointer is what is left. */
  lemma UncachedReads(t: Target, image: Image, pointer: nat, flags: nat)
    requires pointer % 4 == 0 && flags < 4
    ensures
      var r, rw := Uncached(t, image, pointer + flags), t.rwAt(pointer);
      && (rw.None? ==> r == Err(EINVALID_DATA))
      && (rw.Some? && !rw.value.realized ==> r == Err(ENOTFOUND))
      && (rw.Some? && rw.value.realized ==>
            var ro := rw.value.dataRo;
            var bytes := if !rw.value.copiedRo && image.contains(ro) then image.mapped(ro) else t.roAt(ro);
            r == if bytes.Some? && image.nameReadable(bytes.value) then Ok(bytes.value) else Err(EINVALID_DATA))
  {
    PointerOf(pointer, flags);
  }

  lemma PointerOf(pointer: nat, flags: nat)
    requires pointer % 4 == 0 && flags < 4
    ensures DataPointer(pointer + flags) == pointer
  {
  }

  /** Two class pointers share a bucket if and only if they are a multiple of 4096 bytes apart. */
  lemma SharedBucketIff(a: nat, b: nat)
    requires a % 4 == 0 && b % 4 == 0 && a <= b
    ensures Index(a) == Index(b) <==> (b - a) % 4096 == 0
  {
    SameResidue(a / 4, b / 4);
  }

  lemma SameResidue(x: nat, y: nat)
    requires x <= y
    ensures x % 1024 == y % 1024 <==> (4 * y - 4 * x) % 4096 == 0
  {
  }

  /** Reading a realized class leaves its pointer in the cache, if there is memory and its bucket is free. */
  lemma ParseFills(t: Target, image: Image, c: Cache, pointer: nat, flags: nat, canAllocate: bool)
    requires c.Valid() && pointer % 4 == 0 && pointer > 0 && flags < 4 && (c.keys == [] ==> canAllocate)
    requires c.keys != [] ==> c.keys[Index(pointer)] == 0
    requires Uncached(t, image, pointer + flags).Ok?
    ensures t.rwAt(pointer).Some?
    ensures Parse(t, image, c, pointer + flags, canAllocate).cache.Lookup(pointer) == t.rwAt(pointer).value.dataRo
  {
    PointerOf(pointer, flags);
  }

  /** What has been found is found from then on, whatever else is parsed. */
  lemma {:induction false} FoundStays(t: Target, c: Cache, requests: seq<Request>, key: nat)
    requires c.Valid() && key > 0 && c.Lookup(key) != 0
    ensures ParseAll(t, c, requests).Lookup(key) == c.Lookup(key)
    decreases requests
  {
    if requests != [] {
      var q := requests[0];
      var next := Parse(t, q.image, c, q.dataRw, q.canAllocate).cache;
      assert next.Lookup(key) == c.Lookup(key);
      FoundStays(t, next, requests[1..], key);
    }
  }

  /** Then the class_rw data is not read any more. */
  lemma FoundIsNotRead(t: Target, image: Image, c: Cache, dataRw: nat, canAllocate: bool, other: nat -> Option<ClassRw>)
    requires c.Valid() && c.Lookup(dataRw / 4 * 4) != 0
    ensures Parse(t, image, c, dataRw, canAllocate) == Parse(t.(rwAt := other), image, c, dataRw, canAllocate)
  {
  }
}
