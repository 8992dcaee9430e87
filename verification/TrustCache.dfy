/**
  The issuer resolver of src/email-verification.ts: three fetched documents checked against a trust
  entry, and a bounded cache of the outcome in front of them.
*/
module TrustCache {
  import opened Json
  import opened JsonNames
  import opened JsonText
  import opened Options
  import opened Sequences
  import TxtRecord

  const MAX_KEYS := 32
  const NETWORK_TIMEOUT_MS := 5000.0
  const TRUST_CACHE_TTL_MS := 60000.0
  const MAX_CACHE_ENTRIES := 16

  datatype Issuer = Issuer(emailDomain: Utf16, issuer: Utf16, jwksUri: Utf16)

  /** Tests of names and URLs; sixteen algorithm names are known. */
  datatype Checks = Checks(
    publicHostname: Utf16 -> bool,
    canonicalOrigin: Utf16 -> bool,
    trustedResource: Utf16 -> bool,
    knownAlgorithm: Utf16 -> bool)

  // ----- The documents -----

  datatype Question = Question(name: Option<Utf16>, kind: Option<int>)
  datatype Answer = Answer(name: Option<Utf16>, kind: Option<int>, data: Option<Utf16>, ttl: Option<real>)

  /** A DNS answer document; a member that is absent or of another type is None, or no object at all. */
  datatype Dns = NoDns | Dns(status: Option<int>, questions: seq<Option<Question>>, answers: seq<Option<Answer>>)

  datatype Algorithms = Absent | NotStrings | Listed(names: seq<Utf16>)

  datatype Metadata =
    | NoMetadata
    | Metadata(issuer: Option<Utf16>, jwksUri: Option<Utf16>, endpoint: Option<Utf16>, algorithms: Algorithms)

  /** A key set: for each key, whether it is an object; value stands for the document. */
  datatype Jwks = NoKeys | Jwks(keys: seq<bool>, value: Utf16)

  datatype Delegation = Delegation(host: Utf16, ttl: real)

  predicate SameOwner(value: Option<Utf16>, owner: Utf16) {
    value == Some(owner) || value == Some(owner + Key("."))
  }

  const TXT := 16

  function ReadDelegation(checks: Checks, dns: Dns, owner: Utf16): Option<Delegation> {
    if dns.NoDns? || dns.status != Some(0)
       || |dns.questions| != 1 || dns.questions[0].None?
       || !SameOwner(dns.questions[0].value.name, owner) || dns.questions[0].value.kind != Some(TXT)
       || |dns.answers| != 1 || dns.answers[0].None?
    then None
    else
      var answer := dns.answers[0].value;
      if !SameOwner(answer.name, owner) || answer.kind != Some(TXT) || answer.data.None? then None
      else
        var text := TxtRecord.Read(answer.data.value);
        if text.None? || !(Key("iss=") <= text.value) then None
        else
          var host := text.value[|Key("iss=")|..];
          if !checks.publicHostname(host) then None
          else Some(Delegation(host, Lifetime(answer)))
  }

  predicate ValidAlgorithms(checks: Checks, a: Algorithms) {
    || a.Absent?
    || (a.Listed? && 0 < |a.names| <= 16 && forall i :: 0 <= i < |a.names| ==> checks.knownAlgorithm(a.names[i]))
  }

  // ----- One resolution without a cache -----

  datatype Trust = Trust(jwks: Utf16, algorithms: seq<Utf16>)

  /** A fetch: the clock before it, its document unless it failed or timed out, the clock after it. */
  datatype Fetch<T> = Fetch(before: real, document: Option<T>, after: real) {
    function Result(deadline: real): Option<T> {
      if deadline - before <= 0.0 || document.None? || after >= deadline then None else document
    }
  }

  /** Everything one resolution reads from the clock and the network, in order. */
  datatype Attempt = Attempt(
    startedAt: real, dns: Fetch<Dns>, dnsReceivedAt: real, metadata: Fetch<Metadata>, jwks: Fetch<Jwks>,
    checkedAt: real, completedAt: real)

  datatype Resolution = Resolution(trust: Trust, delegatedUntil: real, completedAt: real)

  predicate Resolvable(checks: Checks, e: Issuer) {
    checks.publicHostname(e.emailDomain) && checks.canonicalOrigin(e.issuer) && checks.trustedResource(e.jwksUri)
  }

  function Owner(e: Issuer): Utf16 {
    Key("_email-verification.") + e.emailDomain
  }

  predicate MetadataFor(checks: Checks, m: Metadata, e: Issuer) {
    && m.Metadata? && m.issuer == Some(e.issuer) && m.jwksUri == Some(e.jwksUri)
    && m.endpoint.Some? && checks.trustedResource(m.endpoint.value) && ValidAlgorithms(checks, m.algorithms)
  }

  predicate UsableKeys(j: Jwks) {
    j.Jwks? && 0 < |j.keys| <= MAX_KEYS && forall i :: 0 <= i < |j.keys| ==> j.keys[i]
  }

  function AlgorithmsOf(m: Metadata): seq<Utf16>
    requires m.Metadata?
  {
    if m.algorithms.Listed? then m.algorithms.names else [Key("Ed25519")]
  }

  /** The resolver with no cache in front: the trust it finds for an entry, and until when. */
  function Uncached(checks: Checks, e: Issuer, a: Attempt): Option<Resolution> {
    var deadline := a.startedAt + NETWORK_TIMEOUT_MS;
    var dns, metadata, jwks := a.dns.Result(deadline), a.metadata.Result(deadline), a.jwks.Result(deadline);
    if !Resolvable(checks, e) || dns.None? then None
    else
      var delegation := ReadDelegation(checks, dns.value, Owner(e));
      if delegation.None? || Key("https://") + delegation.value.host != e.issuer then None
      else if metadata.None? || !MetadataFor(checks, metadata.value, e) then None
      else if jwks.None? || !UsableKeys(jwks.value) || a.checkedAt >= deadline then None
      else Some(Resolution(Trust(jwks.value.value, AlgorithmsOf(metadata.value)),
                           a.dnsReceivedAt + delegation.value.ttl * 1000.0, a.completedAt))
  }

  // ----- What a resolution rests on -----

  /** How long an answer may be used, in seconds; an unusable lifetime is none. */
  function Lifetime(answer: Answer): real {
    if answer.ttl.Some? && answer.ttl.value >= 0.0 then answer.ttl.value else 0.0
  }

  /** The one answer to the one question about an owner's text. */
  ghost predicate Answers(dns: Dns, owner: Utf16, answer: Answer) {
    && dns.Dns? && dns.status == Some(0)
    && |dns.questions| == 1 && dns.questions[0].Some? && dns.questions[0].value.kind == Some(16)
    && dns.questions[0].value.name in {Some(owner), Some(owner + Key("."))}
    && dns.answers == [Some(answer)] && answer.kind == Some(16)
    && answer.name in {Some(owner), Some(owner + Key("."))}
  }

  /** An answer whose text, however it is cut into chunks and escaped, names a public host. */
  ghost predicate Delegates(checks: Checks, answer: Answer, record: TxtRecord.Record, host: Utf16) {
    && record.Chunk? && TxtRecord.GoodRecord(record) && answer.data == Some(TxtRecord.Print(record))
    && TxtRecord.Meaning(record) == Key("iss=") + host && checks.publicHostname(host)
  }

  lemma PrefixCut(prefix: Utf16, text: Utf16, rest: Utf16)
    ensures prefix <= text && text[|prefix|..] == rest <==> text == prefix + rest
  {
  }

  lemma DelegationIff(checks: Checks, dns: Dns, owner: Utf16, host: Utf16, ttl: real)
    ensures ReadDelegation(checks, dns, owner) == Some(Delegation(host, ttl)) <==>
              exists answer, record :: Answers(dns, owner, answer) && Delegates(checks, answer, record, host)
                                       && ttl == Lifetime(answer)
  {
    hide TxtRecord.Read, TxtRecord.Print, TxtRecord.Meaning, TxtRecord.GoodRecord, ToUtf16;
    if ReadDelegation(checks, dns, owner) == Some(Delegation(host, ttl)) {
      var answer := dns.answers[0].value;
      var text := TxtRecord.Read(answer.data.value).value;
      TxtRecord.ReadIff(answer.data.value, text);
      var record: TxtRecord.Record :| record.Chunk? && TxtRecord.GoodRecord(record)
                                      && TxtRecord.Print(record) == answer.data.value
                                      && TxtRecord.Meaning(record) == text;
      PrefixCut(Key("iss="), text, host);
      assert Answers(dns, owner, answer) && Delegates(checks, answer, record, host);
    }
    forall answer, record | Answers(dns, owner, answer) && Delegates(checks, answer, record, host)
                            && ttl == Lifetime(answer)
      ensures ReadDelegation(checks, dns, owner) == Some(Delegation(host, ttl))
    {
      TxtRecord.ReadIff(answer.data.value, Key("iss=") + host);
      PrefixCut(Key("iss="), Key("iss=") + host, host);
    }
  }

  /** A fetch that brought a document and began and ended before a deadline. */
  predicate InTime<T>(f: Fetch<T>, deadline: real) {
    f.document.Some? && f.before < deadline && f.after < deadline
  }

  /** Metadata of the entry's issuer: its name, its key address, an endpoint, and known algorithms if any. */
  ghost predicate Describes(checks: Checks, m: Metadata, e: Issuer) {
    && m.Metadata? && m.issuer == Some(e.issuer) && m.jwksUri == Some(e.jwksUri)
    && m.endpoint.Some? && checks.trustedResource(m.endpoint.value)
    && match m.algorithms
       case Absent => true
       case NotStrings => false
       case Listed(names) => 1 <= |names| <= 16 && forall name :: name in names ==> checks.knownAlgorithm(name)
  }

  lemma DescribesIff(checks: Checks, m: Metadata, e: Issuer)
    ensures Describes(checks, m, e) <==> MetadataFor(checks, m, e)
    ensures Describes(checks, m, e) ==> m.Metadata?
  {
  }

  lemma UsableIff(j: Jwks)
    ensures UsableKeys(j) <==> j.Jwks? && 1 <= |j.keys| <= 32 && false !in j.keys
  {
  }

  /**
    What a resolution claims: in time, the owner's DNS text delegated to the host of the entry's
    issuer, that issuer's metadata named the entry's key address, and usable keys were found there;
    and it lasts as long as the DNS answer, counted from its arrival.
  */
  ghost predicate Vouched(checks: Checks, e: Issuer, a: Attempt, answer: Answer, record: TxtRecord.Record,
                          r: Resolution) {
    var deadline := a.startedAt + 5000.0;
    && checks.publicHostname(e.emailDomain) && checks.canonicalOrigin(e.issuer) && checks.trustedResource(e.jwksUri)
    && InTime(a.dns, deadline) && InTime(a.metadata, deadline) && InTime(a.jwks, deadline) && a.checkedAt < deadline
    && Answers(a.dns.document.value, Key("_email-verification.") + e.emailDomain, answer)
    && Key("https://") <= e.issuer && Delegates(checks, answer, record, e.issuer[|Key("https://")|..])
    && Describes(checks, a.metadata.document.value, e)
    && a.jwks.document.value.Jwks? && 1 <= |a.jwks.document.value.keys| <= 32
    && false !in a.jwks.document.value.keys
    && r.trust.jwks == a.jwks.document.value.value
    && r.trust.algorithms == (match a.metadata.document.value.algorithms
                              case Listed(names) => names
                              case _ => [Key("Ed25519")])
    && r.delegatedUntil == a.dnsReceivedAt + Lifetime(answer) * 1000.0 && r.completedAt == a.completedAt
  }

  /** The uncached resolver finds a resolution exactly when everything it claims is so. */
  lemma UncachedIff(checks: Checks, e: Issuer, a: Attempt, r: Resolution)
    ensures Uncached(checks, e, a) == Some(r) <==> exists answer, record :: Vouched(checks, e, a, answer, record, r)
  {
    hide ReadDelegation, Answers, Delegates, MetadataFor, Describes, UsableKeys, ToUtf16;
    var prefix := Key("https://");
    if a.metadata.document.Some? {
      DescribesIff(checks, a.metadata.document.value, e);
    }
    if a.jwks.document.Some? {
      UsableIff(a.jwks.document.value);
    }
    var host := if prefix <= e.issuer then e.issuer[|prefix|..] else [];
    if Uncached(checks, e, a) == Some(r) {
      var delegation := ReadDelegation(checks, a.dns.document.value, Owner(e)).value;
      PrefixCut(prefix, e.issuer, delegation.host);
      DelegationIff(checks, a.dns.document.value, Owner(e), delegation.host, delegation.ttl);
      var answer, record :| Answers(a.dns.document.value, Owner(e), answer)
                            && Delegates(checks, answer, record, delegation.host) && delegation.ttl == Lifetime(answer);
      assert Vouched(checks, e, a, answer, record, r);
    }
    forall answer, record | Vouched(checks, e, a, answer, record, r)
      ensures Uncached(checks, e, a) == Some(r)
    {
      DelegationIff(checks, a.dns.document.value, Owner(e), host, Lifetime(answer));
      PrefixCut(prefix, e.issuer, host);
    }
  }

  // ----- The cache key -----

  function EntryTree(e: Issuer): Tree {
    Obj(Member("emailDomain", Str(Escape(e.emailDomain)),
        Member("issuer", Str(Escape(e.issuer)),
        Member("jwksUri", Str(Escape(e.jwksUri)), NoMembers))))
  }

  function KeyOf(e: Issuer): string {
    Stringify(EntryTree(e))
  }

  lemma EntryNames()
    ensures GoodName("emailDomain") && GoodName("issuer") && GoodName("jwksUri")
  {
    hide GoodName, ToUtf16;
    KeyOfName("emailDomain");
    KeyOfName("issuer");
    KeyOfName("jwksUri");
  }

  lemma GoodEntry(e: Issuer)
    ensures GoodTree(EntryTree(e))
  {
    EntryNames();
    EscapedBody(e.emailDomain);
    EscapedBody(e.issuer);
    EscapedBody(e.jwksUri);
    hide GoodBody, Escape, GoodName, Key;
    var last := Member("jwksUri", Str(Escape(e.jwksUri)), NoMembers);
    GoodMember("jwksUri", Escape(e.jwksUri), NoMembers);
    GoodMember("issuer", Escape(e.issuer), last);
    GoodMember("emailDomain", Escape(e.emailDomain), Member("issuer", Str(Escape(e.issuer)), last));
  }

  /** Two entries share a cache slot only when they are the same entry. */
  lemma KeyIff(e: Issuer, f: Issuer)
    ensures KeyOf(e) == KeyOf(f) <==> e == f
  {
    hide Stringify, Escape, Unescape;
    GoodEntry(e);
    GoodEntry(f);
    ParseStringify(EntryTree(e));
    ParseStringify(EntryTree(f));
    UnescapeEscape(e.emailDomain);
    UnescapeEscape(f.emailDomain);
    UnescapeEscape(e.issuer);
    UnescapeEscape(f.issuer);
    UnescapeEscape(e.jwksUri);
    UnescapeEscape(f.jwksUri);
  }

  // ----- The cache -----

  datatype Cached = Cached(expiresAt: real, trust: Trust)

  /** A Map: its keys in insertion order. */
  datatype Cache = Cache(order: seq<string>, entries: map<string, Cached>)

  const EMPTY := Cache([], map[])

  function Without(order: seq<string>, key: string): (r: seq<string>)
    ensures forall k :: k in r <==> k in order && k != key
  {
    if order == [] then [] else (if order[0] == key then [] else [order[0]]) + Without(order[1..], key)
  }

  /** Map.delete. */
  function Delete(c: Cache, key: string): Cache {
    Cache(Without(c.order, key), c.entries - {key})
  }

  /** Map.set: a key that is present keeps its place. */
  function Set(c: Cache, key: string, value: Cached): Cache {
    Cache(if key in c.entries then c.order else c.order + [key], c.entries[key := value])
  }

  predicate Hits(c: Cache, key: string, now: real) {
    key in c.entries && c.entries[key].expiresAt > now
  }

  /** The start of a resolution: an entry that is not a hit is dropped. */
  function AfterLookup(c: Cache, key: string, now: real): Cache {
    if Hits(c, key, now) then c else Delete(c, key)
  }

  function Min(a: real, b: real): real {
    if a < b then a else b
  }

  function ExpiresAt(r: Resolution): real {
    Min(r.delegatedUntil, r.completedAt + TRUST_CACHE_TTL_MS)
  }

  /** The end of a resolution. */
  function AfterResolution(c: Cache, key: string, r: Resolution): Cache {
    if ExpiresAt(r) <= r.completedAt then c
    else
      var room := if |c.entries| >= MAX_CACHE_ENTRIES && c.order != [] then Delete(c, c.order[0]) else c;
      Set(room, key, Cached(ExpiresAt(r), r.trust))
  }

  // ----- Runs -----

  /** The two moments of a resolution at which it touches the cache. Any number overlap. */
  datatype Event = Look(entry: Issuer, now: real) | Finish(entry: Issuer, attempt: Attempt)

  function Step(checks: Checks, c: Cache, e: Event): Cache {
    match e
    case Look(entry, now) => if Resolvable(checks, entry) then AfterLookup(c, KeyOf(entry), now) else c
    case Finish(entry, attempt) =>
      var r := Uncached(checks, entry, attempt);
      if r.None? then c else AfterResolution(c, KeyOf(entry), r.value)
  }

  function RunFrom(checks: Checks, c: Cache, events: seq<Event>): Cache {
    if events == [] then c else Step(checks, RunFrom(checks, c, events[..|events| - 1]), events[|events| - 1])
  }

  function Run(checks: Checks, events: seq<Event>): Cache {
    RunFrom(checks, EMPTY, events)
  }

  /** The map's keys are those in order, each once, and there is a bound on them. */
  ghost predicate Bounded(c: Cache) {
    && (forall k :: k in c.order <==> k in c.entries)
    && |c.entries| == |c.order| <= 16
  }

  lemma {:induction false} WithoutAbsent(order: seq<string>, key: string)
    requires key !in order
    ensures Without(order, key) == order
  {
    if order == [] {
    } else {
      WithoutAbsent(order[1..], key);
      assert order == [order[0]] + order[1..];
    }
  }

  lemma DeleteBounded(c: Cache, key: string)
    requires Bounded(c) && Distinct(c.order)
    ensures Bounded(Delete(c, key)) && Distinct(Delete(c, key).order)
    ensures key in c.entries ==> |Delete(c, key).entries| == |c.entries| - 1
  {
    DistinctWithout(c.order, key);
    assert (c.entries - {key}).Keys == c.entries.Keys - {key};
  }

  predicate Distinct(order: seq<string>) {
    order == [] || (order[0] !in order[1..] && Distinct(order[1..]))
  }

  lemma {:induction false} DistinctWithout(order: seq<string>, key: string)
    requires Distinct(order)
    ensures Distinct(Without(order, key))
    ensures |Without(order, key)| == |order| - if key in order then 1 else 0
  {
    if order == [] {
    } else {
      DistinctWithout(order[1..], key);
      if order[0] == key {
        WithoutAbsent(order[1..], key);
        assert Without(order, key) == Without(order[1..], key);
      } else {
        assert Without(order, key)[1..] == Without(order[1..], key);
      }
    }
  }

  lemma {:induction false} DistinctMore(order: seq<string>, key: string)
    requires Distinct(order) && key !in order
    ensures Distinct(order + [key])
  {
    if order == [] {
      assert order + [key] == [key];
    } else {
      DistinctMore(order[1..], key);
      assert (order + [key])[1..] == order[1..] + [key];
    }
  }

  lemma SetBounded(c: Cache, key: string, value: Cached)
    requires Bounded(c) && Distinct(c.order) && (|c.entries| < MAX_CACHE_ENTRIES || key in c.entries)
    ensures Bounded(Set(c, key, value)) && Distinct(Set(c, key, value).order)
  {
    if key !in c.entries {
      DistinctMore(c.order, key);
      assert c.entries[key := value].Keys == c.entries.Keys + {key};
    } else {
      assert c.entries[key := value].Keys == c.entries.Keys;
    }
  }

  lemma RoomBounded(c: Cache)
    requires Bounded(c) && Distinct(c.order)
    ensures var room := if |c.entries| >= MAX_CACHE_ENTRIES && c.order != [] then Delete(c, c.order[0]) else c;
            Bounded(room) && Distinct(room.order) && |room.entries| < MAX_CACHE_ENTRIES
  {
    if |c.entries| >= MAX_CACHE_ENTRIES {
      assert c.order[0] in c.order;
      DeleteBounded(c, c.order[0]);
    }
  }

  lemma StepBounded(checks: Checks, c: Cache, e: Event)
    requires Bounded(c) && Distinct(c.order)
    ensures Bounded(Step(checks, c, e)) && Distinct(Step(checks, c, e).order)
  {
    hide Uncached, KeyOf, Resolvable, ExpiresAt, Set, Delete, Distinct, Bounded;
    match e
    case Look(entry, now) =>
      DeleteBounded(c, KeyOf(entry));
    case Finish(entry, attempt) =>
      var r := Uncached(checks, entry, attempt);
      if r.Some? && ExpiresAt(r.value) > r.value.completedAt {
        var room := if |c.entries| >= MAX_CACHE_ENTRIES && c.order != [] then Delete(c, c.order[0]) else c;
        RoomBounded(c);
        SetBounded(room, KeyOf(entry), Cached(ExpiresAt(r.value), r.value.trust));
      }
  }

  /** The cache never exceeds its limit, however resolutions overlap. */
  lemma {:induction false} RunBounded(checks: Checks, events: seq<Event>)
    ensures Bounded(Run(checks, events)) && Distinct(Run(checks, events).order)
  {
    if events == [] {
    } else {
      RunBounded(checks, events[..|events| - 1]);
      StepBounded(checks, Run(checks, events[..|events| - 1]), events[|events| - 1]);
    }
  }

  /** Storing an outcome costs at most the oldest entry, and that only when the cache is full. */
  lemma EvictsOldest(c: Cache, key: string, r: Resolution, other: string)
    requires Bounded(c) && Distinct(c.order) && other != key
    ensures var after := AfterResolution(c, key, r);
            && (other in after.entries <==>
                  other in c.entries && !(ExpiresAt(r) > r.completedAt && |c.entries| == MAX_CACHE_ENTRIES
                                          && other == c.order[0]))
            && (other in after.entries ==> after.entries[other] == c.entries[other])
  {
    hide ExpiresAt, Distinct, Without;
  }

  /** A finished resolution of an entry whose outcome is worth keeping. */
  predicate Keeps(checks: Checks, e: Event, entry: Issuer) {
    e.Finish? && e.entry == entry
    && var r := Uncached(checks, entry, e.attempt); r.Some? && ExpiresAt(r.value) > r.value.completedAt
  }

  /** What one event does to the slot of an entry: sets it, leaves it, or empties it. */
  lemma StepSlot(checks: Checks, c: Cache, e: Event, entry: Issuer)
    ensures Keeps(checks, e, entry) ==>
              var r := Uncached(checks, entry, e.attempt).value;
              && KeyOf(entry) in Step(checks, c, e).entries
              && Step(checks, c, e).entries[KeyOf(entry)] == Cached(ExpiresAt(r), r.trust)
    ensures !Keeps(checks, e, entry) && KeyOf(entry) in Step(checks, c, e).entries ==>
              && KeyOf(entry) in c.entries
              && Step(checks, c, e).entries[KeyOf(entry)] == c.entries[KeyOf(entry)]
  {
    hide Uncached, KeyOf, Resolvable, ExpiresAt, Without;
    KeyIff(e.entry, entry);
  }

  /** What the cache holds for an entry is the outcome of the latest resolution that was kept. */
  lemma {:induction false} Provenance(checks: Checks, events: seq<Event>, entry: Issuer) returns (i: nat)
    requires KeyOf(entry) in Run(checks, events).entries
    ensures i < |events| && Keeps(checks, events[i], entry)
    ensures var r := Uncached(checks, entry, events[i].attempt).value;
            Run(checks, events).entries[KeyOf(entry)] == Cached(ExpiresAt(r), r.trust)
    ensures forall j :: i < j < |events| ==> !Keeps(checks, events[j], entry)
  {
    hide Uncached, KeyOf, Resolvable, ExpiresAt, Step, Keeps;
    var n := |events| - 1;
    StepSlot(checks, Run(checks, events[..n]), events[n], entry);
    if Keeps(checks, events[n], entry) {
      i := n;
    } else {
      i := Provenance(checks, events[..n], entry);
    }
  }

  /**
    A hit agrees with the uncached resolver: it returns the trust that a resolution of the very
    same entry found, the latest one worth keeping, on the strength of the documents it names, while
    its delegation, counted from the arrival of the DNS answer, and the cap counted from its end are
    both still running.
  */
  lemma HitIsFresh(checks: Checks, events: seq<Event>, entry: Issuer, now: real) returns (i: nat)
    requires Hits(Run(checks, events), KeyOf(entry), now)
    ensures i < |events| && events[i].Finish? && events[i].entry == entry
    ensures var r := Uncached(checks, entry, events[i].attempt);
            && r.Some?
            && Run(checks, events).entries[KeyOf(entry)].trust == r.value.trust
            && now < r.value.delegatedUntil
            && now < r.value.completedAt + TRUST_CACHE_TTL_MS
            && exists answer, record :: Vouched(checks, entry, events[i].attempt, answer, record, r.value)
    ensures forall j :: i < j < |events| ==> !Keeps(checks, events[j], entry)
  {
    hide Uncached, KeyOf, Run, Vouched;
    i := Provenance(checks, events, entry);
    UncachedIff(checks, entry, events[i].attempt, Uncached(checks, entry, events[i].attempt).value);
  }

  // ----- What is kept stays -----

  /** A finished resolution that stores its outcome, of whatever entry. */
  predicate Stores(checks: Checks, e: Event) {
    e.Finish? && Keeps(checks, e, e.entry)
  }

  function Stored(checks: Checks, events: seq<Event>): nat {
    if events == [] then 0
    else Stored(checks, events[..|events| - 1]) + if Stores(checks, events[|events| - 1]) then 1 else 0
  }

  /** The keys that were placed after a key. */
  function Newer(order: seq<string>, key: string): nat {
    if order == [] then 0 else if order[0] == key then |order| - 1 else Newer(order[1..], key)
  }

  lemma {:induction false} NewerWithout(order: seq<string>, key: string, other: string)
    requires other != key
    ensures Newer(Without(order, other), key) <= Newer(order, key)
  {
    if order == [] {
    } else {
      NewerWithout(order[1..], key, other);
      var rest := Without(order[1..], other);
      WithoutShorter(order[1..], other);
      AppendNothing(rest);
      Rest(order[0], rest);
    }
  }

  lemma {:induction false} WithoutShorter(order: seq<string>, key: string)
    ensures |Without(order, key)| <= |order|
  {
    if order == [] {
    } else {
      WithoutShorter(order[1..], key);
    }
  }

  lemma {:induction false} NewerMore(order: seq<string>, key: string, other: string)
    ensures key in order ==> Newer(order + [other], key) == Newer(order, key) + 1
    ensures key !in order ==> Newer(order + [key], key) == 0
  {
    if order == [] {
      AppendNothing([key]);
    } else {
      NewerMore(order[1..], key, other);
      Uncons(order);
      Associate([order[0]], order[1..], [other]);
      Associate([order[0]], order[1..], [key]);
      Rest(order[0], order[1..] + [other]);
      Rest(order[0], order[1..] + [key]);
    }
  }

  /** What storing an outcome does to the place of a key that is not the oldest of a full cache. */
  lemma StorePlace(c: Cache, key: string, other: string, value: Cached)
    requires Bounded(c) && Distinct(c.order)
    ensures var room := if |c.entries| >= MAX_CACHE_ENTRIES && c.order != [] then Delete(c, c.order[0]) else c;
            && (key in c.entries && Newer(c.order, key) < MAX_CACHE_ENTRIES - 1 && other != key ==>
                  key in Set(room, other, value).entries
                  && Newer(Set(room, other, value).order, key) <= Newer(c.order, key) + 1)
            && Newer(Set(room, key, value).order, key) <= Newer(c.order, key)
  {
    hide Newer, Distinct, Without;
    var room := if |c.entries| >= MAX_CACHE_ENTRIES && c.order != [] then Delete(c, c.order[0]) else c;
    RoomBounded(c);
    NewerMore(room.order, key, other);
    if c.order != [] {
      NewerFirst(c.order);
      if c.order[0] != key {
        NewerWithout(c.order, key, c.order[0]);
      }
    }
  }

  lemma NewerFirst(order: seq<string>)
    requires order != []
    ensures Newer(order, order[0]) == |order| - 1
  {
  }

  /** The latest outcome of the entry before j that was worth keeping is that of the event at k. */
  ghost predicate LatestKept(checks: Checks, events: seq<Event>, entry: Issuer, k: nat, j: nat) {
    k < j <= |events| && Keeps(checks, events[k], entry) && forall m :: k < m < j ==> !Keeps(checks, events[m], entry)
  }

  /** Every look for the entry after i comes before the expiry of what was kept for it last. */
  ghost predicate LooksInTime(checks: Checks, events: seq<Event>, entry: Issuer, i: nat) {
    forall k: nat, j: nat :: i <= k && j < |events| && LatestKept(checks, events, entry, k, j)
                             && events[j].Look? && events[j].entry == entry ==>
      events[j].now < ExpiryOf(checks, entry, events[k])
  }

  function ExpiryOf(checks: Checks, entry: Issuer, e: Event): real
    requires Keeps(checks, e, entry)
  {
    ExpiresAt(Uncached(checks, entry, e.attempt).value)
  }

  /** A key stays, and grows older by one place at most, unless it is looked up too late or is the oldest of all. */
  lemma StepPlace(checks: Checks, c: Cache, e: Event, entry: Issuer)
    requires Bounded(c) && Distinct(c.order) && KeyOf(entry) in c.entries
    requires e.Look? && e.entry == entry ==> Hits(c, KeyOf(entry), e.now)
    requires Newer(c.order, KeyOf(entry)) + (if Stores(checks, e) then 1 else 0) < MAX_CACHE_ENTRIES
    ensures var after := Step(checks, c, e);
            && KeyOf(entry) in after.entries
            && Newer(after.order, KeyOf(entry)) <= Newer(c.order, KeyOf(entry)) + if Stores(checks, e) then 1 else 0
  {
    hide Uncached, KeyOf, Resolvable, ExpiresAt, Newer, Without, Distinct, Bounded;
    KeyIff(e.entry, entry);
    var key := KeyOf(entry);
    match e
    case Look(other, now) =>
      if other != entry {
        NewerWithout(c.order, key, KeyOf(other));
      }
    case Finish(other, attempt) =>
      if Stores(checks, e) {
        var r := Uncached(checks, other, attempt).value;
        StorePlace(c, key, KeyOf(other), Cached(ExpiresAt(r), r.trust));
      }
  }

  /** The first outcome that is kept for a key puts it behind all others. */
  lemma StepPlaced(checks: Checks, c: Cache, e: Event, entry: Issuer)
    requires Bounded(c) && Distinct(c.order) && KeyOf(entry) !in c.entries && Keeps(checks, e, entry)
    ensures KeyOf(entry) in Step(checks, c, e).entries && Newer(Step(checks, c, e).order, KeyOf(entry)) == 0
  {
    hide Uncached, KeyOf, ExpiresAt, Newer, Without, Distinct;
    var room := if |c.entries| >= MAX_CACHE_ENTRIES && c.order != [] then Delete(c, c.order[0]) else c;
    NewerMore(room.order, KeyOf(entry), KeyOf(entry));
  }

  /**
    Retention: from the time a key is placed, it is there as long as each look for it comes before the
    expiry of what was kept last, and fewer than sixteen outcomes have been stored since.
  */
  lemma {:induction false} Retained(checks: Checks, events: seq<Event>, entry: Issuer, i: nat)
    requires i < |events| && Keeps(checks, events[i], entry)
    requires KeyOf(entry) !in Run(checks, events[..i]).entries
    requires LooksInTime(checks, events, entry, i)
    requires Stored(checks, events) - Stored(checks, events[..i + 1]) < 16
    ensures KeyOf(entry) in Run(checks, events).entries
    ensures Newer(Run(checks, events).order, KeyOf(entry)) <= Stored(checks, events) - Stored(checks, events[..i + 1])
  {
    hide Uncached, KeyOf, ExpiresAt, Step, Newer, Keeps, Bounded, Distinct, Stores, ExpiryOf;
    var n := |events| - 1;
    var before := events[..n];
    RunBounded(checks, before);
    if i == n {
      StepPlaced(checks, Run(checks, before), events[n], entry);
      assert events[..n + 1] == events;
    } else {
      assert before[..i] == events[..i] && before[..i + 1] == events[..i + 1];
      LooksBefore(checks, events, entry, i);
      Retained(checks, before, entry, i);
      if events[n].Look? && events[n].entry == entry {
        LookHits(checks, events, entry, i);
      }
      StepPlace(checks, Run(checks, before), events[n], entry);
    }
  }

  lemma LooksBefore(checks: Checks, events: seq<Event>, entry: Issuer, i: nat)
    requires events != [] && LooksInTime(checks, events, entry, i)
    ensures LooksInTime(checks, events[..|events| - 1], entry, i)
  {
    hide Keeps, ExpiryOf;
    var before := events[..|events| - 1];
    forall k: nat, j: nat | i <= k && j < |before| && LatestKept(checks, before, entry, k, j)
                            && before[j].Look? && before[j].entry == entry
      ensures before[j].now < ExpiryOf(checks, entry, before[k])
    {
      assert LatestKept(checks, events, entry, k, j);
    }
  }

  /** A look in time hits. */
  lemma LookHits(checks: Checks, events: seq<Event>, entry: Issuer, i: nat)
    requires i < |events| - 1 && Keeps(checks, events[i], entry) && LooksInTime(checks, events, entry, i)
    requires events[|events| - 1].Look? && events[|events| - 1].entry == entry
    requires KeyOf(entry) in Run(checks, events[..|events| - 1]).entries
    ensures Hits(Run(checks, events[..|events| - 1]), KeyOf(entry), events[|events| - 1].now)
  {
    hide Uncached, KeyOf, ExpiresAt, Run, Keeps;
    var n := |events| - 1;
    var k := Provenance(checks, events[..n], entry);
    assert forall m :: k < m < n ==> !Keeps(checks, events[..n][m], entry) && events[..n][m] == events[m];
    assert LatestKept(checks, events, entry, k, n);
    NotBefore(checks, events, entry, k, i, n);
  }

  lemma NotBefore(checks: Checks, events: seq<Event>, entry: Issuer, k: nat, i: nat, j: nat)
    requires LatestKept(checks, events, entry, k, j) && i < j && Keeps(checks, events[i], entry)
    ensures i <= k
  {
  }

  lemma OneLatest(checks: Checks, events: seq<Event>, entry: Issuer, k: nat, m: nat, j: nat)
    requires LatestKept(checks, events, entry, k, j) && LatestKept(checks, events, entry, m, j)
    ensures k == m && events[k].Finish? && Uncached(checks, entry, events[k].attempt).Some?
  {
  }

  lemma HeldIsLatest(checks: Checks, events: seq<Event>, entry: Issuer, k: nat)
    requires KeyOf(entry) in Run(checks, events).entries && LatestKept(checks, events, entry, k, |events|)
    ensures events[k].Finish? && Uncached(checks, entry, events[k].attempt).Some?
    ensures var r := Uncached(checks, entry, events[k].attempt).value;
            Run(checks, events).entries[KeyOf(entry)] == Cached(ExpiresAt(r), r.trust)
  {
    hide Uncached, KeyOf, Run, Keeps, LatestKept, ExpiresAt;
    var m := Provenance(checks, events, entry);
    ProvenanceIsLatest(checks, events, entry, m);
    OneLatest(checks, events, entry, k, m, |events|);
  }

  /**
    The cache is used: after such a run, a look before the expiry of the entry's latest kept outcome
    hits, and finds the trust of its resolution.
  */
  lemma KeptIsHit(checks: Checks, events: seq<Event>, entry: Issuer, i: nat, k: nat, now: real)
    requires i < |events| && Keeps(checks, events[i], entry)
    requires KeyOf(entry) !in Run(checks, events[..i]).entries
    requires LooksInTime(checks, events, entry, i)
    requires Stored(checks, events) - Stored(checks, events[..i + 1]) < 16
    requires LatestKept(checks, events, entry, k, |events|)
    ensures events[k].Finish? && Uncached(checks, entry, events[k].attempt).Some?
    ensures var r := Uncached(checks, entry, events[k].attempt).value;
            && KeyOf(entry) in Run(checks, events).entries
            && Run(checks, events).entries[KeyOf(entry)].trust == r.trust
            && (Hits(Run(checks, events), KeyOf(entry), now)
                <==> now < r.delegatedUntil && now < r.completedAt + 60000.0)
  {
    hide Uncached, KeyOf, Run, Keeps, LooksInTime, Stored, LatestKept, Newer;
    Retained(checks, events, entry, i);
    HeldIsLatest(checks, events, entry, k);
  }

  lemma ProvenanceIsLatest(checks: Checks, events: seq<Event>, entry: Issuer, m: nat)
    requires m < |events| && Keeps(checks, events[m], entry)
    requires forall j :: m < j < |events| ==> !Keeps(checks, events[j], entry)
    ensures LatestKept(checks, events, entry, m, |events|)
  {
    hide Keeps;
  }

  // ----- The resolver -----

  class Resolver {
    var order: seq<string>
    var entries: map<string, Cached>

    function State(): Cache
      reads this
    {
      Cache(order, entries)
    }

    constructor ()
      ensures State() == EMPTY
    {
      order, entries := [], map[];
    }

    method DeleteKey(key: string)
      modifies this
      ensures State() == Delete(old(State()), key)
    {
      order := Without(order, key);
      entries := entries - {key};
    }

    method SetKey(key: string, value: Cached)
      modifies this
      ensures State() == Set(old(State()), key, value)
    {
      if key !in entries {
        order := order + [key];
      }
      entries := entries[key := value];
    }

    /** The lookup at the start of a resolution. */
    method Lookup(key: string, now: real) returns (hit: Option<Trust>)
      modifies this
      ensures hit == if Hits(old(State()), key, now) then Some(old(entries)[key].trust) else None
      ensures State() == AfterLookup(old(State()), key, now)
    {
      if key in entries && entries[key].expiresAt > now {
        return Some(entries[key].trust);
      }
      DeleteKey(key);
      return None;
    }

    /** The store at its end. */
    method Keep(key: string, trust: Trust, delegationExpiresAt: real, completedAt: real)
      modifies this
      ensures State() == AfterResolution(old(State()), key, Resolution(trust, delegationExpiresAt, completedAt))
    {
      var expiresAt := Min(delegationExpiresAt, completedAt + TRUST_CACHE_TTL_MS);
      if expiresAt > completedAt {
        if |entries| >= MAX_CACHE_ENTRIES {
          if order != [] {
            DeleteKey(order[0]);
          }
        }
        SetKey(key, Cached(expiresAt, trust));
      }
    }

    /** What other resolutions do to the cache while this one waits for the network. */
    method Others(checks: Checks, events: seq<Event>)
      modifies this
      ensures State() == RunFrom(checks, old(State()), events)
    {
      hide Uncached, KeyOf, Resolvable;
      ghost var start := State();
      for i := 0 to |events|
        invariant State() == RunFrom(checks, start, events[..i])
      {
        assert events[..i + 1][..i] == events[..i];
        if Resolvable(checks, events[i].entry) {
          match events[i]
          case Look(entry, now) =>
            var _ := Lookup(KeyOf(entry), now);
          case Finish(entry, attempt) =>
            var r := Uncached(checks, entry, attempt);
            if r.Some? {
              Keep(KeyOf(entry), r.value.trust, r.value.delegatedUntil, r.value.completedAt);
            }
        } else {
          UnresolvableKeeps(checks, State(), events[i]);
        }
      }
      assert events[..|events|] == events;
    }

    /** A resolution: None is the error it throws. */
    method Resolve(checks: Checks, entry: Issuer, lookedAt: real, attempt: Attempt, meanwhile: seq<Event>)
      returns (result: Option<Trust>)
      modifies this
      ensures !Resolvable(checks, entry) ==> result == None && State() == old(State())
      ensures Resolvable(checks, entry) && Hits(old(State()), KeyOf(entry), lookedAt) ==>
                result == Some(old(entries)[KeyOf(entry)].trust) && State() == old(State())
      ensures Resolvable(checks, entry) && !Hits(old(State()), KeyOf(entry), lookedAt) ==>
                && State() == Step(checks,
                                   RunFrom(checks, Step(checks, old(State()), Look(entry, lookedAt)), meanwhile),
                                   Finish(entry, attempt))
                && result == (match Uncached(checks, entry, attempt) case None => None case Some(r) => Some(r.trust))
    {
      hide KeyOf, Uncached, RunFrom, AfterResolution, Delete, Resolvable;
      if !Resolvable(checks, entry) {
        return None;
      }
      var key := KeyOf(entry);
      var cached := Lookup(key, lookedAt);
      if cached.Some? {
        return cached;
      }
      Others(checks, meanwhile);
      var resolution := Validate(checks, entry, attempt);
      if resolution.None? {
        return None;
      }
      var r := resolution.value;
      Keep(key, r.trust, r.delegatedUntil, r.completedAt);
      return Some(r.trust);
    }
  }

  /** The fetches and checks between the lookup and the store. */
  method Validate(checks: Checks, entry: Issuer, attempt: Attempt) returns (r: Option<Resolution>)
    requires Resolvable(checks, entry)
    ensures r == Uncached(checks, entry, attempt)
  {
    hide ReadDelegation, ValidAlgorithms, ToUtf16;
    var deadline := attempt.startedAt + NETWORK_TIMEOUT_MS;
    var dns := attempt.dns.Result(deadline);
    if dns.None? {
      return None;
    }
    var delegation := ReadDelegation(checks, dns.value, Owner(entry));
    if delegation.None? || Key("https://") + delegation.value.host != entry.issuer {
      return None;
    }
    var delegationExpiresAt := attempt.dnsReceivedAt + delegation.value.ttl * 1000.0;
    var metadata := attempt.metadata.Result(deadline);
    if metadata.None? || !MetadataFor(checks, metadata.value, entry) {
      return None;
    }
    var jwks := attempt.jwks.Result(deadline);
    if jwks.None? || !UsableKeys(jwks.value) || attempt.checkedAt >= deadline {
      return None;
    }
    var trust := Trust(jwks.value.value, AlgorithmsOf(metadata.value));
    return Some(Resolution(trust, delegationExpiresAt, attempt.completedAt));
  }

  lemma UnresolvableKeeps(checks: Checks, c: Cache, e: Event)
    requires !Resolvable(checks, e.entry)
    ensures Step(checks, c, e) == c
  {
  }
}
