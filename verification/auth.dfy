/** The API-key check run before every authenticated endpoint: a primary key list kept in a
    JSON document of the key store, then a fallback list read from the environment at start-up. */
module Auth {
  import opened Wrappers
  import opened JsonValues
  import opened Http
  import Text

  /** Why a request was turned away; all three answer 401, with different details. */
  datatype Reason = MissingKey | NotConfigured | InvalidKey

  /** Which list recognised the key. */
  datatype Source = Primary | Fallback

  /** A refusal carries the `HTTPException`'s status code and `detail` text. */
  datatype Decision = Accept(key: string, source: Source) | Reject(status: int, reason: Reason, detail: string)

  /** The primary key list as one request sees it: no client (the start-up connection failed),
      a read that raises a store or decoding error, or the decoded document at `.api_keys`
      (null when the document or path is absent). */
  datatype PrimaryStore = NoClient | ReadFails | Fetched(doc: Json)

  /** The advice the missing-key and invalid-key details share. */
  const KeyHint := " API key. Use 'X-API-Key' header with a valid key."

  /** The `detail` text of the 401 answer for each reason. */
  function Detail(reason: Reason): string {
    match reason
    case MissingKey => "Missing" + KeyHint
    case NotConfigured => "No valid API keys configured." + " Please contact the admin."
    case InvalidKey => "Invalid" + KeyHint
  }

  /** The three refusals are told apart by their detail text alone. */
  lemma DetailsDistinct(a: Reason, b: Reason)
    ensures Detail(a) == Detail(b) <==> a == b
  {
    assert Detail(MissingKey)[0] == 'M';
    assert Detail(NotConfigured)[0] == 'N';
    assert Detail(InvalidKey)[0] == 'I';
  }

  /** The 401 raised for `reason`. */
  function Refuse(reason: Reason): Decision {
    Reject(Unauthorized, reason, Detail(reason))
  }

  /** `os.getenv(name, default)` for a variable whose value, if set, is `env`. */
  function Getenv(env: Option<string>, default: string): string {
    if env.Some? then env.value else default
  }

  /** `os.getenv("API_KEYS", "").split(",")`: never empty, and `[""]` when the variable is unset. */
  function FallbackKeys(env: Option<string>): (keys: seq<string>)
    ensures 1 <= |keys|
    ensures env.None? ==> keys == [""]
    ensures Text.Join(keys, ',') == Getenv(env, "")
    ensures forall k :: k in keys ==> ',' !in k
  {
    Text.JoinSplit(Getenv(env, ""), ',');
    Text.SplitPiecesAvoidSeparator(Getenv(env, ""), ',');
    Text.Split(Getenv(env, ""), ',')
  }

  /** `any(keys)`: some fallback entry is a non-empty string. */
  predicate Configured(keys: seq<string>) {
    exists i :: 0 <= i < |keys| && keys[i] != ""
  }

  /** The loop over the stored entries: `entry.get("key") == key` on each in turn. An entry that
      is not an object has no `get`; the AttributeError ends the loop and is swallowed, so it
      counts as no match. */
  function ScanEntries(entries: seq<Json>, key: string): (found: bool)
    ensures found ==> exists i :: 0 <= i < |entries| && entries[i].JObj? && Get(entries[i].fields, "key") == JStr(key)
    ensures entries != [] && !entries[0].JObj? ==> !found
  {
    if entries == [] then false
    else match entries[0]
      case JObj(o) => Get(o, "key") == JStr(key) || ScanEntries(entries[1..], key)
      case _ => false
  }

  /** Declarative reading: some object entry carries the key and every entry before it is an object. */
  predicate ListedBeforeNonObject(entries: seq<Json>, key: string) {
    exists i :: 0 <= i < |entries| && entries[i].JObj? && Get(entries[i].fields, "key") == JStr(key) &&
      forall j :: 0 <= j < i ==> entries[j].JObj?
  }

  lemma {:induction false} ScanEntriesListed(entries: seq<Json>, key: string)
    ensures ScanEntries(entries, key) <==> ListedBeforeNonObject(entries, key)
    decreases |entries|
  {
    if entries != [] && entries[0].JObj? {
      ScanEntriesListed(entries[1..], key);
      if ListedBeforeNonObject(entries[1..], key) {
        var i :| 0 <= i < |entries[1..]| && entries[1..][i].JObj? && Get(entries[1..][i].fields, "key") == JStr(key) &&
          forall j :: 0 <= j < i ==> entries[1..][j].JObj?;
        assert entries[i + 1] == entries[1..][i];
        assert forall j :: 0 <= j < i + 1 ==> entries[j].JObj? by {
          forall j | 0 <= j < i + 1 ensures entries[j].JObj? {
            if j > 0 { assert entries[j] == entries[1..][j - 1]; }
          }
        }
      }
      if ListedBeforeNonObject(entries, key) && Get(entries[0].fields, "key") != JStr(key) {
        var i :| 0 <= i < |entries| && entries[i].JObj? && Get(entries[i].fields, "key") == JStr(key) &&
          forall j :: 0 <= j < i ==> entries[j].JObj?;
        assert i > 0;
        assert entries[1..][i - 1] == entries[i];
        assert forall j :: 0 <= j < i - 1 ==> entries[1..][j].JObj? by {
          forall j | 0 <= j < i - 1 ensures entries[1..][j].JObj? {
            assert entries[1..][j] == entries[j + 1];
          }
        }
      }
    }
  }

  /** Iterating over a non-list document: a falsy one is skipped; a non-empty object or string
      yields strings, whose missing `get` is swallowed; a non-zero number or `true` is not
      iterable, and that TypeError is not among the swallowed ones. */
  function PrimaryLookup(store: PrimaryStore, key: string): (r: Outcome<bool>)
    ensures r.Raised? <==> NotIterable(store)
    ensures r.Raised? ==> r.error == TypeError
    ensures r == Returned(true) <==> PrimaryAccepts(store, key)
  {
    match store
    case NoClient => Returned(false)
    case ReadFails => Returned(false)
    case Fetched(doc) =>
      if !Truthy(doc) then Returned(false)
      else match doc
        case JArr(entries) =>
          ScanEntriesListed(entries, key);
          Returned(ScanEntries(entries, key))
        case JObj(_) => Returned(false)
        case JStr(_) => Returned(false)
        case _ => Raised(TypeError)
  }

  /** The primary list accepts `key`. */
  predicate PrimaryAccepts(store: PrimaryStore, key: string) {
    store.Fetched? && store.doc.JArr? && ListedBeforeNonObject(store.doc.items, key)
  }

  /** The document is a non-zero number or `true`, which `for` cannot iterate. */
  predicate NotIterable(store: PrimaryStore) {
    store.Fetched? && (store.doc.JNum? || store.doc.JBool?) && Truthy(store.doc)
  }

  /** `verify_api_key`. */
  function VerifyApiKey(key: Option<string>, primary: PrimaryStore, fallback: seq<string>): (r: Outcome<Decision>)
    ensures key.None? || key.value == "" ==> r == Returned(Refuse(MissingKey))
    ensures r.Returned? && r.value.Accept? ==> key == Some(r.value.key) && r.value.key != ""
    ensures r.Returned? && r.value.Reject? ==> r.value.status == Unauthorized
    ensures r.Returned? && r.value.Reject? ==> r.value.detail == Detail(r.value.reason)
    ensures r.Raised? <==> key.Some? && key.value != "" && NotIterable(primary)
  {
    if key.None? || key.value == "" then Returned(Refuse(MissingKey))
    else match PrimaryLookup(primary, key.value)
      case Raised(e) => Raised(e)
      case Returned(hit) =>
        if hit then Returned(Accept(key.value, Primary))
        else if |fallback| == 0 || !Configured(fallback) then Returned(Refuse(NotConfigured))
        else if key.value in fallback then Returned(Accept(key.value, Fallback))
        else Returned(Refuse(InvalidKey))
  }

  /** A missing or empty key is refused before either list is looked at: the answer is the
      same whatever the two lists hold. */
  lemma MissingKeyIgnoresSources(key: Option<string>, p1: PrimaryStore, p2: PrimaryStore, f1: seq<string>, f2: seq<string>)
    requires key.None? || key.value == ""
    ensures VerifyApiKey(key, p1, f1) == VerifyApiKey(key, p2, f2) == Returned(Refuse(MissingKey))
  {
  }

  /** A present key is accepted exactly when the primary list lists it, or the fallback list
      is configured and contains it. */
  lemma AcceptedIff(key: string, primary: PrimaryStore, fallback: seq<string>)
    requires key != "" && !NotIterable(primary)
    ensures VerifyApiKey(Some(key), primary, fallback).Returned?
    ensures VerifyApiKey(Some(key), primary, fallback).value.Accept? <==>
      PrimaryAccepts(primary, key) || (Configured(fallback) && key in fallback)
  {
    if primary.Fetched? && primary.doc.JArr? {
      ScanEntriesListed(primary.doc.items, key);
    }
  }

  /** Without a primary match, an all-blank fallback list gives the "not configured" refusal and
      a configured one that lacks the key gives "invalid". */
  lemma RejectionReasons(key: string, primary: PrimaryStore, fallback: seq<string>)
    requires key != "" && !NotIterable(primary) && !PrimaryAccepts(primary, key)
    ensures !Configured(fallback) ==> VerifyApiKey(Some(key), primary, fallback) == Returned(Refuse(NotConfigured))
    ensures Configured(fallback) && key !in fallback ==> VerifyApiKey(Some(key), primary, fallback) == Returned(Refuse(InvalidKey))
  {
    if primary.Fetched? && primary.doc.JArr? {
      ScanEntriesListed(primary.doc.items, key);
    }
  }

  /** With `API_KEYS` unset and the primary list unreachable, every request is refused as
      "not configured". */
  lemma UnsetEnvironmentRefusesAll(key: string, primary: PrimaryStore)
    requires key != "" && (primary.NoClient? || primary.ReadFails?)
    ensures VerifyApiKey(Some(key), primary, FallbackKeys(None)) == Returned(Refuse(NotConfigured))
  {
  }

  /** Store errors are swallowed: an unreachable store and a failing read decide like a store
      with no keys at all. */
  lemma PrimaryErrorsAreNoMatch(key: Option<string>, fallback: seq<string>)
    ensures VerifyApiKey(key, NoClient, fallback) == VerifyApiKey(key, ReadFails, fallback) == VerifyApiKey(key, Fetched(JArr([])), fallback)
  {
  }

  /** A non-object entry ends the primary scan even when a later entry holds the key. */
  lemma NonObjectEntryHidesLaterKeys(key: string)
    requires key != ""
    ensures VerifyApiKey(Some(key), Fetched(JArr([JStr("x"), JObj(map["key" := JStr(key)])])), [""]) == Returned(Refuse(NotConfigured))
  {
  }
}
