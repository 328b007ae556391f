/** The per-year data: the file `json/{year}.json` and the cache in front of it, read
    cache-aside (cache first, then the file, then the file's data written back). */
module Store {
  import opened Wrappers
  import opened JsonValues
  import Text

  /** What opening `json/{year}.json` and `json.load`-ing it yields. */
  datatype Load = Loaded(data: Dataset) | FileMissing | Corrupt

  /** The year file as the file system presents it: whether its resolved path leaves the
      `json` directory (only a link can do that, see `FileNameIsPlain`), and what reading it gives. */
  datatype YearFile = YearFile(escapes: bool, load: Load)

  /** A cached string, represented by what `json.loads` makes of it: the empty string (falsy,
      so a miss), text that is not JSON, the JSON `null`, or a dataset. */
  datatype Cached = Blank | Undecodable | DecodesToNull | Decodes(data: Dataset)

  datatype Entry = Entry(value: Cached, ttlSeconds: nat)

  /** The cache client: absent when the start-up connection failed; otherwise its entries and
      whether reads or writes raise a store error. */
  datatype Cache = NoClient | Client(entries: map<string, Entry>, readFails: bool, writeFails: bool)

  /** The time to live of a written-back year: 24 hours. */
  const TtlSeconds := 86400

  /** `f"holidays:{year}"`: the prefix, then the year's decimal digits, which read back as the year. */
  function CacheKey(year: nat): (k: string)
    ensures 10 <= |k| && k[..9] == "holidays:"
    ensures forall i :: 9 <= i < |k| ==> Text.IsDigit(k[i])
    ensures Text.DecimalValue(k[9..]) == year
  {
    Text.NatToStringRoundTrip(year);
    var k := "holidays:" + Text.NatToString(year);
    assert k[9..] == Text.NatToString(year);
    k
  }

  /** `f"{year}.json"`, the file name under the `json` directory. */
  function FileName(year: nat): string {
    Text.NatToString(year) + ".json"
  }

  /** A year's file name is a single plain path component: no separator and no `..`, so the
      path guard can only trip when the file system redirects it. */
  lemma FileNameIsPlain(year: nat)
    ensures '/' !in FileName(year)
    ensures FileName(year) != "." && FileName(year) != ".."
    ensures Text.IsDigit(FileName(year)[0])
  {
    var digits := Text.NatToString(year);
    assert FileName(year)[0] == digits[0];
    assert forall i :: 0 <= i < |FileName(year)| ==> FileName(year)[i] != '/' by {
      forall i | 0 <= i < |FileName(year)| ensures FileName(year)[i] != '/' {
        if i < |digits| { assert FileName(year)[i] == digits[i]; }
      }
    }
  }

  /** Different years never share a cache key. */
  lemma CacheKeysDistinct(a: nat, b: nat)
    requires a != b
    ensures CacheKey(a) != CacheKey(b)
  {
    Text.NatToStringInjective(a, b);
    assert CacheKey(a)[9..] == Text.NatToString(a);
    assert CacheKey(b)[9..] == Text.NatToString(b);
  }

  /** The cache read: a hit only when a client exists, the read does not raise, the key is
      present with a non-empty value, and that value decodes to something other than `null`. */
  function CacheGet(c: Cache, key: string): (r: Option<Dataset>)
    ensures r.Some? <==> c.Client? && !c.readFails && key in c.entries && c.entries[key].value.Decodes?
    ensures r.Some? ==> r.value == c.entries[key].value.data
  {
    if c.NoClient? || c.readFails || key !in c.entries then None
    else match c.entries[key].value
      case Decodes(data) => Some(data)
      case _ => None
  }

  /** The write-back `setex(key, 86400, json.dumps(data))`; a failing write leaves the cache as it was. */
  function CachePut(c: Cache, key: string, data: Dataset): (c': Cache)
    ensures c.NoClient? || c.writeFails ==> c' == c
    ensures c.Client? && !c.writeFails ==>
      c'.Client? && c'.readFails == c.readFails && c'.writeFails == c.writeFails &&
      c'.entries.Keys == c.entries.Keys + {key} &&
      c'.entries[key] == Entry(Decodes(data), TtlSeconds) &&
      forall k :: k in c.entries && k != key ==> c'.entries[k] == c.entries[k]
  {
    if c.NoClient? || c.writeFails then c
    else c.(entries := c.entries[key := Entry(Decodes(data), TtlSeconds)])
  }

  /** Where the year's data came from, or why there is none. */
  datatype Fetched = Got(data: Dataset) | PathRejected | Absent | Unparsable

  /** The result of one cache-aside read, the cache afterwards, and how many times the file was opened. */
  datatype Fetch = Fetch(result: Fetched, cache: Cache, fileReads: nat)

  /** The cache-aside read of a year (the first half of `get_holiday_info`). */
  function FetchYear(year: nat, c: Cache, file: YearFile): (f: Fetch)
    ensures f.fileReads <= 1
    ensures CacheGet(c, CacheKey(year)).Some? ==>
      f == Fetch(Got(CacheGet(c, CacheKey(year)).value), c, 0)
    ensures CacheGet(c, CacheKey(year)).None? && file.escapes ==> f == Fetch(PathRejected, c, 0)
    ensures f.result.Got? && f.fileReads == 1 ==> file.load == Loaded(f.result.data)
    ensures !f.result.Got? ==> f.cache == c
    ensures CacheGet(c, CacheKey(year)).None? && !file.escapes ==> f.fileReads == 1
    ensures CacheGet(c, CacheKey(year)).None? && !file.escapes && file.load.FileMissing? ==> f.result == Absent && f.cache == c
    ensures CacheGet(c, CacheKey(year)).None? && !file.escapes && file.load.Corrupt? ==> f.result == Unparsable && f.cache == c
    ensures CacheGet(c, CacheKey(year)).None? && !file.escapes && file.load.Loaded? ==>
      f.result == Got(file.load.data) && f.cache == CachePut(c, CacheKey(year), file.load.data)
  {
    var key := CacheKey(year);
    match CacheGet(c, key)
    case Some(data) => Fetch(Got(data), c, 0)
    case None =>
      if file.escapes then Fetch(PathRejected, c, 0)
      else match file.load
        case FileMissing => Fetch(Absent, c, 1)
        case Corrupt => Fetch(Unparsable, c, 1)
        case Loaded(data) => Fetch(Got(data), CachePut(c, key, data), 1)
  }

  /** A healthy cache: a client whose reads and writes succeed. */
  predicate Healthy(c: Cache) {
    c.Client? && !c.readFails && !c.writeFails
  }

  /** After a miss that read the file, a healthy cache holds the data under the year's key with
      a 24-hour lifetime, and the next read of that year is a hit that leaves the file alone. */
  lemma WriteBack(year: nat, c: Cache, file: YearFile, later: YearFile)
    requires Healthy(c) && CacheGet(c, CacheKey(year)).None?
    requires !file.escapes && file.load.Loaded?
    ensures FetchYear(year, c, file).cache.entries[CacheKey(year)] == Entry(Decodes(file.load.data), TtlSeconds)
    ensures FetchYear(year, FetchYear(year, c, file).cache, later) == Fetch(Got(file.load.data), FetchYear(year, c, file).cache, 0)
  {
  }

  /** A cache that is absent, failing, or holds nothing usable for the year is read through
      to the file exactly as if there were no cache; the cache itself only changes at the
      year's key. */
  lemma CacheFailureDegradesToFile(year: nat, c: Cache, file: YearFile)
    requires CacheGet(c, CacheKey(year)).None?
    ensures FetchYear(year, c, file).result == FetchYear(year, NoClient, file).result
    ensures FetchYear(year, c, file).fileReads == FetchYear(year, NoClient, file).fileReads
  {
  }

  /** Reading one year never changes what the cache answers for another year. */
  lemma OtherYearsUntouched(year: nat, other: nat, c: Cache, file: YearFile)
    requires year != other
    ensures CacheGet(FetchYear(year, c, file).cache, CacheKey(other)) == CacheGet(c, CacheKey(other))
  {
    CacheKeysDistinct(year, other);
  }

  /** Cache transparency: data found in the cache is the data the file would have given. */
  lemma HitMatchesFileRead(year: nat, c: Cache, data: Dataset, file: YearFile)
    requires CacheGet(c, CacheKey(year)) == Some(data)
    ensures FetchYear(year, c, file).result == FetchYear(year, NoClient, YearFile(false, Loaded(data))).result
  {
  }
}
