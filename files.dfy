/** The bookkeeping parts of `simpler/files.py`: the format of a file
    guessed from its extension, the two in-memory caches behind
    `mem_cache`, and the signatures `find_hidden_compressed` looks for in
    the bytes of a file. */
module Files {

  import opened Wrappers
  import opened Strings

  // ---------------------------------------------------------------------
  // detect_format

  /** `_detect_format_exts`: each format with its extensions, in the order
      they are tried. */
  const FormatTable: seq<(string, seq<string>)> := [
    ("bytes", ["bin", "db", "dat", "blob", "bytes"]),
    ("csv", ["csv"]),
    ("json", ["json", "js"]),
    ("jsonl", ["jsonl", "jsl"]),
    ("pickle", ["pickle", "pk", "pkl", "pck", "pcl"]),
    ("string", ["txt", "text", "str"]),
    ("table", ["xlsx", "odf", "ods", "odt", "xls", "xlsb", "xlsm"]),
    ("yaml", ["yaml", "yml"]),
    ("tar", ["tar", "tar-linux32", "tar-linux64", "tar.gz"]),
    ("zip", ["zip", "cbz"]),
    ("gzip", ["gz", "gzip", "gunzip"]),
    ("bzip2", ["bzip2", "bz2"]),
    ("rar", ["rar", "cbr"]),
    ("7zip", ["7z", "7zip"]),
    ("lzma", ["lzip", "lz"])
  ]

  /** `any(name.endswith('.' + ext) for ext in exts)`. */
  predicate HasExtension(name: string, exts: seq<string>)
  {
    exists e :: e in exts && EndsWith(name, "." + e)
  }

  /** Row `i` of the table claims the (lower-cased) name. */
  predicate RowMatches(name: string, i: int)
    requires 0 <= i < |FormatTable|
  {
    HasExtension(name, FormatTable[i].1)
  }

  /** The first row of the table, from row `from` on, that claims `name`. */
  function FirstRow(name: string, from: nat): (r: Option<nat>)
    requires from <= |FormatTable|
    ensures r.Some? ==>
      from <= r.value < |FormatTable| && RowMatches(name, r.value)
      && forall j :: from <= j < r.value ==> !RowMatches(name, j)
    ensures r.None? ==> forall j :: from <= j < |FormatTable| ==> !RowMatches(name, j)
    decreases |FormatTable| - from
  {
    if from == |FormatTable| then None
    else if RowMatches(name, from) then Some(from)
    else FirstRow(name, from + 1)
  }

  /** The assertion on `accept` failed. */
  datatype FormatError = UnknownFormat

  /** `detect_format(path, format, accept, default)`; `None` stands for the
      Python `None`, both for `accept` and for the format returned. */
  method DetectFormat(path: string, format: string, accept: Option<seq<string>>, default: Option<string>)
    returns (r: Result<Option<string>, FormatError>)
    ensures var detected := if format != "auto" then Some(format) else Detected(path, default);
      r == if accept.Some? && !(detected.Some? && detected.value in accept.value)
           then Failure(UnknownFormat) else Success(detected)
  {
    var detected := Some(format);
    if format == "auto" {
      detected := AutoDetect(path, default);
    }
    if accept.Some? && !(detected.Some? && detected.value in accept.value) {
      return Failure(UnknownFormat);
    }
    return Success(detected);
  }

  /** The loop over the table in `detect_format`. */
  method AutoDetect(path: string, default: Option<string>) returns (detected: Option<string>)
    ensures detected == Detected(path, default)
  {
    var name := Lower(path);
    var i := 0;
    while i < |FormatTable|
      invariant 0 <= i <= |FormatTable|
      invariant forall j :: 0 <= j < i ==> !RowMatches(name, j)
    {
      if HasExtension(name, FormatTable[i].1) {
        FirstRowAt(name, i);
        return Some(FormatTable[i].0);
      }
      i := i + 1;
    }
    FirstRowNone(name);
    return default;
  }

  /** A row that matches after rows that do not is the first row. */
  lemma FirstRowAt(name: string, i: nat)
    requires i < |FormatTable| && RowMatches(name, i)
    requires forall j :: 0 <= j < i ==> !RowMatches(name, j)
    ensures FirstRow(name, 0) == Some(i)
  {
    var r := FirstRow(name, 0);
    assert r.Some?;
    assert !(r.value < i);
    assert !(i < r.value);
  }

  /** No row matching means no first row. */
  lemma FirstRowNone(name: string)
    requires forall j :: 0 <= j < |FormatTable| ==> !RowMatches(name, j)
    ensures FirstRow(name, 0).None?
  {
  }

  /** The format an `auto` lookup gives: the first claiming row, else the
      default.  Functions state their facts about `DetectFormat` through it. */
  function Detected(path: string, default: Option<string>): (r: Option<string>)
    ensures r != default ==>
      exists i :: 0 <= i < |FormatTable| && r == Some(FormatTable[i].0) && RowMatches(Lower(path), i)
  {
    match FirstRow(Lower(path), 0)
    case Some(i) => Some(FormatTable[i].0)
    case None => default
  }

  /** Matching ignores case: a path and its upper-cased spelling get the
      same format. */
  lemma DetectedIgnoresCase(path: string, other: string, default: Option<string>)
    requires Lower(path) == Lower(other)
    ensures Detected(path, default) == Detected(other, default)
  {
  }

  /** Table order breaks ties: `X.TAR.GZ` ends in both `.tar.gz` and `.gz`,
      and the `tar` row comes before the `gzip` row. */
  lemma TarBeforeGzip()
    ensures Detected("X.TAR.GZ", None) == Some("tar")
  {
    var name := Lower("X.TAR.GZ");
    assert name == "x.tar.gz";
    forall j | 0 <= j < 8
      ensures !RowMatches(name, j)
    {
      forall e | e in FormatTable[j].1
        ensures !EndsWith(name, "." + e)
      {
        assert e[|e| - 1] != 'z';
        LastCharacter(name, "." + e);
      }
    }
    assert "tar.gz" in FormatTable[8].1;
    assert name[|name| - 7..] == "." + "tar.gz";
    assert RowMatches(name, 8);
    FirstRowAt(name, 8);
  }

  /** A string does not end with a suffix whose last character differs
      from its own. */
  lemma LastCharacter(name: string, suffix: string)
    requires suffix != [] && name != [] && name[|name| - 1] != suffix[|suffix| - 1]
    ensures !EndsWith(name, suffix)
  {
    if |suffix| <= |name| {
      assert name[|name| - |suffix|..][|suffix| - 1] != suffix[|suffix| - 1];
    }
  }

  // ---------------------------------------------------------------------
  // mem_cache

  /** `mem_cache` without `maxsize`: a dictionary from keys to the results
      of the decorated method, filled on the first call with each key.
      `key` computes the key from the arguments and `compute` is the
      decorated method; the ghost fields record, for the proofs, the
      arguments each entry was computed from and every call of the
      method. */
  class MemCache<A, K(==), V> {
    const key: A -> K
    const compute: A -> V
    var cache: map<K, V>
    ghost var origin: map<K, A>
    ghost var invoked: seq<A>

    /** Every entry is the method's result for arguments with that key. */
    ghost predicate Valid()
      reads this
    {
      origin.Keys == cache.Keys
      && forall k :: k in cache ==> key(origin[k]) == k && cache[k] == compute(origin[k])
    }

    constructor(key: A -> K, compute: A -> V)
      ensures Valid() && this.key == key && this.compute == compute
      ensures cache == map[] && invoked == []
    {
      this.key := key;
      this.compute := compute;
      cache := map[];
      origin := map[];
      invoked := [];
    }

    /** `_mem_cache_wrapper(*args)`. */
    method Call(args: A) returns (res: V)
      requires Valid()
      modifies this
      ensures Valid()
      ensures key(args) in old(cache) ==>
        res == old(cache)[key(args)] && cache == old(cache) && invoked == old(invoked)
      ensures key(args) !in old(cache) ==>
        res == compute(args) && cache == old(cache)[key(args) := res] && invoked == old(invoked) + [args]
      ensures key(args) in cache && cache[key(args)] == res
        && key(origin[key(args)]) == key(args) && res == compute(origin[key(args)])
    {
      var k := key(args);
      if k in cache {
        return cache[k];
      }
      res := compute(args);
      invoked := invoked + [args];
      cache := cache[k := res];
      origin := origin[k := args];
    }
  }

  /** `list.index(x)`: the position of the first occurrence of `x`. */
  function IndexOf<T(==)>(s: seq<T>, x: T): (i: nat)
    requires x in s
    ensures i < |s| && s[i] == x && x !in s[..i]
  {
    if s[0] == x then 0
    else
      var i := 1 + IndexOf(s[1..], x);
      assert s[..i] == [s[0]] + s[1..][..i - 1];
      i
  }

  /** `list.remove(x)`: the first occurrence of `x` taken out, if any. */
  function RemoveFirst<T(==)>(s: seq<T>, x: T): seq<T>
  {
    if x in s then s[..IndexOf(s, x)] + s[IndexOf(s, x) + 1..] else s
  }

  ghost predicate Distinct<T>(s: seq<T>)
  {
    forall i, j :: 0 <= i < j < |s| ==> s[i] != s[j]
  }

  /** Taking a key out of a list of distinct keys leaves the others in
      their order, distinct, and without it. */
  lemma RemoveDistinct<T>(s: seq<T>, x: T)
    requires Distinct(s)
    ensures Distinct(RemoveFirst(s, x))
    ensures forall y :: y in RemoveFirst(s, x) <==> y in s && y != x
  {
    var r := RemoveFirst(s, x);
    if x in s {
      var i := IndexOf(s, x);
      forall y
        ensures y in r <==> y in s && y != x
      {
        if y in r {
          var j :| 0 <= j < |r| && r[j] == y;
          if j < i { assert r[j] == s[j]; } else { assert r[j] == s[j + 1]; }
        }
        if y in s && y != x {
          var j :| 0 <= j < |s| && s[j] == y;
          if j < i { assert r[j] == y; } else { assert j > i && r[j - 1] == y; }
        }
      }
      forall a, b | 0 <= a < b < |r|
        ensures r[a] != r[b]
      {
        var a' := if a < i then a else a + 1;
        var b' := if b < i then b else b + 1;
        assert r[a] == s[a'] && r[b] == s[b'];
      }
    }
  }

  /** A list of distinct elements is as long as the set of its elements. */
  lemma {:induction false} DistinctCardinality<T>(s: seq<T>)
    requires Distinct(s)
    ensures |set y | y in s| == |s|
  {
    if s != [] {
      var rest := s[1..];
      DistinctCardinality(rest);
      assert s[0] !in rest;
      assert (set y | y in s) == {s[0]} + (set y | y in rest);
    }
  }

  /** The invariant of the bounded cache, on its parts. */
  ghost predicate Bounded<A, K, V>(key: A -> K, compute: A -> V, maxsize: nat,
                                   cache: map<K, V>, usage: seq<K>, origin: map<K, A>)
  {
    1 <= maxsize
    && Distinct(usage)
    && (forall k :: k in cache ==> k in usage)
    && (forall i :: 0 <= i < |usage| ==> usage[i] in cache)
    && |usage| <= maxsize
    && origin.Keys == cache.Keys
    && (forall k :: k in cache ==> key(origin[k]) == k && cache[k] == compute(origin[k]))
  }

  lemma BoundedSize<A, K, V>(key: A -> K, compute: A -> V, maxsize: nat,
                             cache: map<K, V>, usage: seq<K>, origin: map<K, A>)
    requires Bounded(key, compute, maxsize, cache, usage, origin)
    ensures |cache| == |usage| <= maxsize
  {
    DistinctCardinality(usage);
    assert cache.Keys == set y | y in usage;
  }

  /** A hit: moving the key to the front keeps the invariant. */
  lemma Touch<A, K, V>(key: A -> K, compute: A -> V, maxsize: nat,
                           cache: map<K, V>, usage: seq<K>, origin: map<K, A>, k: K)
    requires Bounded(key, compute, maxsize, cache, usage, origin) && k in cache
    ensures Bounded(key, compute, maxsize, cache, [k] + RemoveFirst(usage, k), origin)
  {
    RemoveDistinct(usage, k);
    var rest := RemoveFirst(usage, k);
    assert |rest| == |usage| - 1;
    var u := [k] + rest;
    PrependDistinct(k, rest);
    assert forall x :: x in cache ==> x in u;
    forall i | 0 < i < |u|
      ensures u[i] in cache
    {
      var y := rest[i - 1];
      assert u[i] == y && y in rest && y in usage;
      var j :| 0 <= j < |usage| && usage[j] == y;
    }
  }

  /** A new element in front of distinct ones keeps them distinct. */
  lemma PrependDistinct<T>(x: T, s: seq<T>)
    requires Distinct(s) && x !in s
    ensures Distinct([x] + s)
  {
    var u := [x] + s;
    forall i, j | 0 <= i < j < |u|
      ensures u[i] != u[j]
    {
      assert u[j] == s[j - 1];
      if i > 0 { assert u[i] == s[i - 1]; }
    }
  }

  /** A miss with room to spare: the new key goes to the front. */
  lemma Store<A, K, V>(key: A -> K, compute: A -> V, maxsize: nat,
                       cache: map<K, V>, usage: seq<K>, origin: map<K, A>, args: A)
    requires Bounded(key, compute, maxsize, cache, usage, origin)
    requires key(args) !in cache && |usage| < maxsize
    ensures Bounded(key, compute, maxsize, cache[key(args) := compute(args)], [key(args)] + usage,
                    origin[key(args) := args])
  {
    var u := [key(args)] + usage;
    PrependDistinct(key(args), usage);
    forall x | x in cache
      ensures x in u
    {
      var i :| 0 <= i < |usage| && usage[i] == x;
      assert u[i + 1] == x;
    }
    forall i | 0 < i < |u|
      ensures u[i] in cache
    {
      assert u[i] == usage[i - 1];
    }
  }

  /** A miss in a full cache: the new key goes to the front and the key at
      the back, the least recently used, leaves the dictionary. */
  lemma StoreEvicting<A, K, V>(key: A -> K, compute: A -> V, maxsize: nat,
                               cache: map<K, V>, usage: seq<K>, origin: map<K, A>, args: A)
    requires Bounded(key, compute, maxsize, cache, usage, origin)
    requires key(args) !in cache && |usage| == maxsize
    ensures usage[|usage| - 1] != key(args)
    ensures var evicted := usage[|usage| - 1];
      Bounded(key, compute, maxsize, cache[key(args) := compute(args)] - {evicted},
              [key(args)] + usage[..|usage| - 1], origin[key(args) := args] - {evicted})
  {
    var k, last := key(args), usage[|usage| - 1];
    var kept := usage[..|usage| - 1];
    var u := [k] + kept;
    assert Distinct(kept);
    PrependDistinct(k, kept);
    var c := cache[k := compute(args)] - {last};
    forall x | x in c && x != k
      ensures x in u
    {
      var i :| 0 <= i < |usage| && usage[i] == x;
      assert i < |usage| - 1;
      assert u[i + 1] == x;
    }
    forall i | 0 < i < |u|
      ensures u[i] in c
    {
      assert u[i] == usage[i - 1];
      assert usage[i - 1] != last;
    }
  }

  /** `mem_cache(maxsize=...)`: a dictionary bounded to `maxsize` entries
      and the list of its keys, most recently used first. */
  class LruCache<A, K(==), V> {
    const key: A -> K
    const compute: A -> V
    const maxsize: nat
    var cache: map<K, V>
    var usage: seq<K>
    ghost var origin: map<K, A>
    ghost var invoked: seq<A>

    /** The keys of the dictionary are exactly the elements of the usage
        list, each listed once, at most `maxsize` of them; every entry is
        the method's result for arguments with that key. */
    ghost predicate Valid()
      reads this
    {
      Bounded(key, compute, maxsize, cache, usage, origin)
    }

    /** The dictionary holds as many entries as the usage list. */
    lemma Size()
      requires Valid()
      ensures |cache| == |usage| <= maxsize
    {
      BoundedSize(key, compute, maxsize, cache, usage, origin);
    }

    constructor(key: A -> K, compute: A -> V, maxsize: nat)
      requires 1 <= maxsize
      ensures Valid() && this.key == key && this.compute == compute && this.maxsize == maxsize
      ensures cache == map[] && usage == [] && invoked == []
    {
      this.key := key;
      this.compute := compute;
      this.maxsize := maxsize;
      cache := map[];
      usage := [];
      origin := map[];
      invoked := [];
    }

    /** `_mem_cache_wrapper(*args)` of the bounded cache.  A hit moves the
        key to the front; a miss stores the result at the front and, when
        the dictionary is then over `maxsize`, evicts the key at the back:
        the least recently used. */
    method Call(args: A) returns (res: V)
      requires Valid()
      modifies this
      ensures Valid()
      ensures key(args) in old(cache) ==>
        (res == old(cache)[key(args)] && cache == old(cache)
         && usage == [key(args)] + RemoveFirst(old(usage), key(args)) && invoked == old(invoked))
      ensures key(args) !in old(cache) && |old(usage)| < maxsize ==>
        (res == compute(args) && cache == old(cache)[key(args) := res]
         && usage == [key(args)] + old(usage) && invoked == old(invoked) + [args])
      ensures key(args) !in old(cache) && |old(usage)| == maxsize ==>
        (res == compute(args) && invoked == old(invoked) + [args]
         && var evicted := old(usage)[|old(usage)| - 1];
         cache == old(cache)[key(args) := res] - {evicted}
         && usage == [key(args)] + old(usage)[..|old(usage)| - 1])
      ensures usage[0] == key(args) && cache[key(args)] == res
    {
      Size();
      ghost var cache0, usage0, origin0 := cache, usage, origin;
      var k := key(args);
      if k in cache {
        res := cache[k];
        Touch(key, compute, maxsize, cache, usage, origin, k);
        usage := RemoveFirst(usage, k);
      } else {
        res := compute(args);
        invoked := invoked + [args];
        cache := cache[k := res];
        origin := origin[k := args];
        assert |cache| == |usage0| + 1;
        if |cache| > maxsize {
          StoreEvicting(key, compute, maxsize, cache0, usage0, origin0, args);
          var elem := usage[|usage| - 1];
          usage := usage[..|usage| - 1];
          cache := cache - {elem};
          origin := origin - {elem};
        } else {
          Store(key, compute, maxsize, cache0, usage0, origin0, args);
        }
      }
      usage := [k] + usage;
    }
  }

  // ---------------------------------------------------------------------
  // find_hidden_compressed

  newtype byte = x: int | 0 <= x < 256

  /** `_find_hidden_compressed_signatures`, in its order. */
  const Signatures: seq<(string, seq<byte>)> := [
    ("RNC", [0x52, 0x4e, 0x43, 0x01]),
    ("RNC2", [0x52, 0x4e, 0x43, 0x02]),
    ("lzip", [0x4c, 0x5a, 0x49, 0x50]),
    ("zip", [0x50, 0x4b, 0x03, 0x04]),
    ("zip-spanned", [0x50, 0x4b, 0x07, 0x08]),
    ("rar1.5+", [0x52, 0x61, 0x72, 0x21, 0x1a, 0x07, 0x00]),
    ("rar5.0+", [0x52, 0x61, 0x72, 0x21, 0x1a, 0x07, 0x01, 0x00]),
    ("iso", [0x43, 0x44, 0x30, 0x30, 0x31]),
    ("xar", [0x78, 0x61, 0x72, 0x21]),
    ("tar1", [0x75, 0x73, 0x74, 0x61, 0x72, 0x00, 0x30, 0x30]),
    ("tar2", [0x75, 0x73, 0x74, 0x61, 0x72, 0x20, 0x20, 0x00]),
    ("7z", [0x37, 0x7a, 0xbc, 0xaf, 0x27, 0x1c]),
    ("lz4", [0x04, 0x22, 0x4d, 0x18]),
    ("webm", [0x1a, 0x45, 0xdf, 0xa3]),
    ("xz", [0xfd, 0x37, 0x7a, 0x58, 0x5a, 0x00]),
    ("wim", [0x4d, 0x53, 0x57, 0x49, 0x4d, 0x00, 0x00])
  ]

  /** `sub` occurs in `data` at position `i`. */
  predicate OccursAt(data: seq<byte>, sub: seq<byte>, i: int)
  {
    0 <= i && i + |sub| <= |data| && data[i..i + |sub|] == sub
  }

  /** `data.find(sub, from)`: the first position from `from` on where `sub`
      occurs, or -1. */
  function Find(data: seq<byte>, sub: seq<byte>, from: nat): (r: int)
    ensures r == -1 || (from <= r && OccursAt(data, sub, r))
    ensures r == -1 ==> forall i :: from <= i ==> !OccursAt(data, sub, i)
    ensures r != -1 ==> forall i :: from <= i < r ==> !OccursAt(data, sub, i)
    decreases |data| - from
  {
    if from + |sub| > |data| then -1
    else if data[from..from + |sub|] == sub then from
    else Find(data, sub, from + 1)
  }

  /** The set comprehension of `find_hidden_compressed`, on the bytes read. */
  function HiddenCompressed(data: seq<byte>): (r: set<string>)
    ensures forall t :: t in r <==>
      exists i :: 0 <= i < |Signatures| && Signatures[i].0 == t && exists j :: OccursAt(data, Signatures[i].1, j)
  {
    set i | 0 <= i < |Signatures| && Find(data, Signatures[i].1, 0) != -1 :: Signatures[i].0
  }

  /** The bytes of a zip local header reveal a zip archive. */
  lemma ZipFound(data: seq<byte>)
    requires |data| >= 4 && data[..4] == [0x50, 0x4b, 0x03, 0x04]
    ensures "zip" in HiddenCompressed(data)
  {
    assert Signatures[3].0 == "zip" && OccursAt(data, Signatures[3].1, 0);
  }
}
