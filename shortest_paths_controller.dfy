/**
 * The cache-aside logic of ShortestPathsController.GetShortestPath: reject a null argument,
 * build the cache key from the configured template, answer from the memory cache on a hit,
 * otherwise ask the shortest-path service, store what it returns and answer with it, or
 * answer BadRequest with the message of the exception thrown by the service or by the
 * cache entry options, which refuse a sliding expiration that is not positive.
 *
 * The memory cache is a map from key to ShortestPathData (entries never expire here), and the
 * service is a total function from the (from, to) pair to what its call does.
 */
module ShortestPathsController {
  import opened Wrappers
  import opened Models

  /**
   * The cache-key template the controller tests configure; the application reads its template
   * from configuration, so the lemmas below that fix this one are about that setting.
   */
  const TEST_KEY_TEMPLATE: string := "ShortestPath_{0}_{1}"

  /** The literal text in front of the first format item of that template. */
  const KEY_PREFIX: string := "ShortestPath_"

  /** The message of the BadRequest answer to a null argument. */
  const INVALID_INPUT_MESSAGE: string := "Invalid input parameters"

  /**
   * What the action answers: 200 with the data, 400 with a message, or the FormatException
   * thrown by string.Format, which escapes the action (it happens before the try block).
   */
  datatype Response = Ok(value: ShortestPathData) | BadRequest(message: string) | FormatFailed

  type Cache = map<string, ShortestPathData>

  // ---------------------------------------------------------------------------------------
  // string.Format(template, from, to)
  // ---------------------------------------------------------------------------------------

  predicate IsBrace(c: char)
  {
    c == '{' || c == '}'
  }

  /** Text that string.Format copies as it is: it holds no brace. */
  predicate IsLiteral(s: string)
  {
    forall i :: 0 <= i < |s| ==> !IsBrace(s[i])
  }

  function Prefixed(prefix: string, rest: Option<string>): Option<string>
  {
    match rest
    case None => None
    case Some(s) => Some(prefix + s)
  }

  /**
   * string.Format with the two arguments from and to: "{0}" and "{1}" are replaced by them,
   * "{{" and "}}" stand for one brace, other text is copied, and any other use of a brace is a
   * FormatException (None).
   */
  function FormatKey(template: string, arg0: string, arg1: string): Option<string>
    decreases |template|
  {
    if |template| == 0 then Some("")
    else if |template| >= 2 && template[0] == '{' && template[1] == '{' then
      Prefixed("{", FormatKey(template[2..], arg0, arg1))
    else if |template| >= 2 && template[0] == '}' && template[1] == '}' then
      Prefixed("}", FormatKey(template[2..], arg0, arg1))
    else if |template| >= 3 && template[0] == '{' && template[1] == '0' && template[2] == '}' then
      Prefixed(arg0, FormatKey(template[3..], arg0, arg1))
    else if |template| >= 3 && template[0] == '{' && template[1] == '1' && template[2] == '}' then
      Prefixed(arg1, FormatKey(template[3..], arg0, arg1))
    else if IsBrace(template[0]) then None
    else Prefixed([template[0]], FormatKey(template[1..], arg0, arg1))
  }

  /** Literal text in front of a template is copied in front of the formatted rest. */
  lemma {:induction false} LiteralPrefix(text: string, rest: string, arg0: string, arg1: string)
    requires IsLiteral(text)
    ensures FormatKey(text + rest, arg0, arg1) == Prefixed(text, FormatKey(rest, arg0, arg1))
    decreases |text|
  {
    if |text| == 0 {
      assert text + rest == rest;
      match FormatKey(rest, arg0, arg1)
      case None =>
      case Some(r) =>
        assert text + r == r;
    } else {
      var t := text + rest;
      assert t[0] == text[0] && !IsBrace(t[0]);
      assert t[1..] == text[1..] + rest;
      assert IsLiteral(text[1..]) by {
        forall i | 0 <= i < |text[1..]| ensures !IsBrace(text[1..][i]) {
          assert text[1..][i] == text[i + 1];
        }
      }
      LiteralPrefix(text[1..], rest, arg0, arg1);
      match FormatKey(rest, arg0, arg1)
      case None =>
      case Some(r) =>
        assert [text[0]] + (text[1..] + r) == text + r;
    }
  }

  /** A template without format items formats to itself. */
  lemma LiteralCopied(template: string, arg0: string, arg1: string)
    requires IsLiteral(template)
    ensures FormatKey(template, arg0, arg1) == Some(template)
  {
    LiteralPrefix(template, "", arg0, arg1);
    assert template + "" == template;
  }

  /** The items "{0}" and "{1}" in front of a template are replaced by the first and second argument. */
  lemma FormatItemPrefix(rest: string, arg0: string, arg1: string)
    ensures FormatKey("{0}" + rest, arg0, arg1) == Prefixed(arg0, FormatKey(rest, arg0, arg1))
    ensures FormatKey("{1}" + rest, arg0, arg1) == Prefixed(arg1, FormatKey(rest, arg0, arg1))
  {
  }

  /** "{{" and "}}" in front of a template each stand for one brace. */
  lemma EscapedBraces(rest: string, arg0: string, arg1: string)
    ensures FormatKey("{{" + rest, arg0, arg1) == Prefixed("{", FormatKey(rest, arg0, arg1))
    ensures FormatKey("}}" + rest, arg0, arg1) == Prefixed("}", FormatKey(rest, arg0, arg1))
  {
  }

  /**
   * A brace that neither is doubled nor opens "{0}" or "{1}" makes string.Format throw,
   * whatever follows it.
   */
  lemma StrayBraceFails(rest: string, arg0: string, arg1: string)
    ensures (|rest| == 0 || rest[0] != '}') ==> FormatKey("}" + rest, arg0, arg1).None?
    ensures (|rest| == 0 || (rest[0] != '{' && rest[0] != '0' && rest[0] != '1')) ==>
              FormatKey("{" + rest, arg0, arg1).None?
    ensures 1 <= |rest| && (rest[0] == '0' || rest[0] == '1') && (|rest| == 1 || rest[1] != '}') ==>
              FormatKey("{" + rest, arg0, arg1).None?
  {
  }

  /** The key the test template gives a pair of names (see TestKeyShape). */
  function TestKey(from: string, to: string): string
  {
    KEY_PREFIX + from + "_" + to
  }

  /** Under the test template the key is "ShortestPath_" + from + "_" + to. */
  lemma TestKeyShape(from: string, to: string)
    ensures FormatKey(TEST_KEY_TEMPLATE, from, to) == Some(TestKey(from, to))
  {
    var key := KEY_PREFIX + from + "_" + to;
    assert key == TestKey(from, to);
    assert FormatKey(TEST_KEY_TEMPLATE, from, to) == Some(key) by {
      var prefix, separator := KEY_PREFIX, "_";
      assert IsLiteral(prefix) && IsLiteral(separator);
      assert TEST_KEY_TEMPLATE == prefix + ("{0}" + (separator + ("{1}" + "")));
      FormatItemPrefix("", from, to);
      LiteralPrefix(separator, "{1}" + "", from, to);
      FormatItemPrefix(separator + ("{1}" + ""), from, to);
      LiteralPrefix(prefix, "{0}" + (separator + ("{1}" + "")), from, to);
      assert to + "" == to;
      ConcatAssociates(from, separator, to);
      ConcatAssociates(prefix, from + separator, to);
      ConcatAssociates(prefix, from, separator);
    }
  }

  /** A name that cannot be mistaken for the separator of the test key. */
  predicate NoUnderscore(s: string)
  {
    forall i :: 0 <= i < |s| ==> s[i] != '_'
  }

  /** In a + "_" + b with no '_' in a, the first '_' is at |a|. */
  lemma SeparatorAt(a: string, b: string)
    requires NoUnderscore(a)
    ensures (a + "_" + b)[|a|] == '_'
    ensures forall i :: 0 <= i < |a| ==> (a + "_" + b)[i] != '_'
  {
    var s := a + "_" + b;
    forall i | 0 <= i < |a| ensures s[i] != '_' {
      assert s[i] == a[i];
    }
  }

  lemma SeparatedParts(a: string, b: string, c: string, d: string)
    requires NoUnderscore(a) && NoUnderscore(c)
    requires a + "_" + b == c + "_" + d
    ensures a == c && b == d
  {
    var s := a + "_" + b;
    SeparatorAt(a, b);
    SeparatorAt(c, d);
    if |a| < |c| {
      assert false;
    } else if |c| < |a| {
      assert false;
    }
    assert a == s[..|a|] == c;
    assert b == s[|a| + 1..] == d;
  }

  lemma PrefixCancels(p: string, x: string, y: string)
    requires p + x == p + y
    ensures x == y
  {
    assert x == (p + x)[|p|..];
  }

  lemma ConcatAssociates(x: string, y: string, z: string)
    ensures x + y + z == x + (y + z)
  {
  }

  lemma SeparatorMoves(p: string, a: string, u: string, b: string)
    ensures p + (a + u) + u + b == p + a + u + (u + b)
  {
    ConcatAssociates(p + (a + u), u, b);
    ConcatAssociates(p, a + u, u + b);
    ConcatAssociates(a, u, u + b);
    ConcatAssociates(p + a, u, u + b);
    ConcatAssociates(p, a, u + (u + b));
  }

  /** For names without '_' the test key determines the ordered (from, to) pair. */
  lemma KeyInjective(from: string, to: string, from': string, to': string)
    requires NoUnderscore(from) && NoUnderscore(from')
    requires TestKey(from, to) == TestKey(from', to')
    ensures from == from' && to == to'
  {
    ConcatAssociates(KEY_PREFIX, from, "_");
    ConcatAssociates(KEY_PREFIX, from + "_", to);
    ConcatAssociates(KEY_PREFIX, from', "_");
    ConcatAssociates(KEY_PREFIX, from' + "_", to');
    PrefixCancels(KEY_PREFIX, from + "_" + to, from' + "_" + to');
    SeparatedParts(from, to, from', to');
  }

  /** The key is ordered: swapping two different names without '_' gives another key. */
  lemma KeysAreOrdered(from: string, to: string)
    requires NoUnderscore(from) && NoUnderscore(to) && from != to
    ensures TestKey(from, to) != TestKey(to, from)
  {
    if TestKey(from, to) == TestKey(to, from) {
      KeyInjective(from, to, to, from);
    }
  }

  /**
   * Names that contain '_' can share a key: (a + "_", b) and (a, "_" + b) both give
   * "ShortestPath_" + a + "__" + b, so ("A_", "B") and ("A", "_B") share one cache entry.
   */
  lemma KeyCollision(a: string, b: string)
    ensures TestKey(a + "_", b) == TestKey(a, "_" + b)
  {
    SeparatorMoves(KEY_PREFIX, a, "_", b);
  }

  // ---------------------------------------------------------------------------------------
  // One request
  // ---------------------------------------------------------------------------------------

  /** The answer, the cache afterwards, and whether the service was called. */
  datatype Step = Step(response: Response, cache: Cache, serviceCalled: bool)

  /** What the action answers when it asks the service directly. */
  function Answer(outcome: ServiceOutcome): Response
  {
    match outcome
    case Computed(data) => Ok(data)
    case Threw(message) => BadRequest(message)
  }

  // ---------------------------------------------------------------------------------------
  // new MemoryCacheEntryOptions().SetSlidingExpiration(TimeSpan.FromMinutes(minutes))
  // ---------------------------------------------------------------------------------------

  /** The setter of MemoryCacheEntryOptions.SlidingExpiration refuses a span that is not positive. */
  const SLIDING_EXPIRATION_MESSAGE: string := "The sliding expiration value must be positive."

  function DigitChar(d: nat): char
    requires d < 10
  {
    "0123456789"[d]
  }

  /** The decimal digits of n, without leading zeros. */
  function Digits(n: nat): (s: string)
    ensures 1 <= |s| && forall i :: 0 <= i < |s| ==> '0' <= s[i] <= '9'
    decreases n
  {
    if n < 10 then [DigitChar(n)] else Digits(n / 10) + [DigitChar(n % 10)]
  }

  function TwoDigits(n: nat): (s: string)
    requires n < 100
    ensures |s| == 2
  {
    [DigitChar(n / 10), DigitChar(n % 10)]
  }

  /** TimeSpan.FromMinutes(minutes).ToString(): "[-][d.]hh:mm:ss", whole minutes having no fraction. */
  function TimeSpanText(minutes: int): string
  {
    var m: nat := if minutes < 0 then -minutes else minutes;
    (if minutes < 0 then "-" else "") +
    (if m / 1440 > 0 then Digits(m / 1440) + "." else "") +
    TwoDigits(m / 60 % 24) + ":" + TwoDigits(m % 60) + ":00"
  }

  /**
   * The Message of the ArgumentOutOfRangeException that setter throws: its own text, the
   * parameter name, and on a new line the value it was given.
   */
  function SlidingExpirationMessage(minutes: int): (message: string)
    ensures |SLIDING_EXPIRATION_MESSAGE| <= |message| && message[..|SLIDING_EXPIRATION_MESSAGE|] == SLIDING_EXPIRATION_MESSAGE
  {
    SLIDING_EXPIRATION_MESSAGE + " (Parameter 'SlidingExpiration')" + "\n" +
    "Actual value was " + TimeSpanText(minutes) + "."
  }

  /**
   * What the action answers on a miss once the service has returned or thrown: the data when
   * the configured duration is positive, otherwise the message of the exception that building
   * the entry options throws; or the message the service threw.
   */
  function MissAnswer(cacheDurationMinutes: int, outcome: ServiceOutcome): (r: Response)
    ensures r == Answer(outcome) <==> cacheDurationMinutes > 0 || outcome.Threw?
    ensures r.BadRequest? || r == Ok(outcome.data)
  {
    match outcome
    case Computed(data) =>
      if cacheDurationMinutes <= 0 then BadRequest(SlidingExpirationMessage(cacheDurationMinutes)) else Ok(data)
    case Threw(message) => BadRequest(message)
  }

  /**
   * One call of GetShortestPath(from, to) on a cache (None is a null argument). Existing
   * entries are never overwritten or removed, at most the request's own key is added and only
   * when the configured duration is positive, and the service is called only on a miss.
   */
  function Handle(settings: CacheSettings, cache: Cache, service: (string, string) -> ServiceOutcome,
                  from: Option<string>, to: Option<string>): (step: Step)
    ensures forall k :: k in cache ==> k in step.cache && step.cache[k] == cache[k]
    ensures forall k :: k in step.cache && k !in cache ==>
              from.Some? && to.Some? && FormatKey(settings.shortestPathCacheKey, from.value, to.value) == Some(k) &&
              service(from.value, to.value) == Computed(step.cache[k]) && step.response == Ok(step.cache[k])
    ensures step.serviceCalled ==>
              from.Some? && to.Some? && step.response == MissAnswer(settings.cacheDurationMinutes, service(from.value, to.value))
    ensures settings.cacheDurationMinutes <= 0 ==> step.cache == cache
  {
    if from.None? || to.None? then Step(BadRequest(INVALID_INPUT_MESSAGE), cache, false)
    else
      match FormatKey(settings.shortestPathCacheKey, from.value, to.value)
      case None => Step(FormatFailed, cache, false)
      case Some(key) =>
        if key in cache then Step(Ok(cache[key]), cache, false)
        else
          match service(from.value, to.value)
          case Computed(data) =>
            if settings.cacheDurationMinutes <= 0 then
              Step(BadRequest(SlidingExpirationMessage(settings.cacheDurationMinutes)), cache, true)
            else Step(Ok(data), cache[key := data], true)
          case Threw(message) => Step(BadRequest(message), cache, true)
  }

  /** A null argument is answered with BadRequest; neither cache nor service is used. */
  lemma NullInputRejected(settings: CacheSettings, cache: Cache, service: (string, string) -> ServiceOutcome,
                          from: Option<string>, to: Option<string>)
    requires from.None? || to.None?
    ensures Handle(settings, cache, service, from, to) == Step(BadRequest(INVALID_INPUT_MESSAGE), cache, false)
  {
  }

  /**
   * Under the test template: a hit answers with the cached data and changes nothing; a
   * miss calls the service, stores its data and answers with it when the duration is positive,
   * answers with the sliding-expiration message and stores nothing when it is not, and answers
   * with the message the service throws and stores nothing when it throws.
   */
  lemma CacheAside(cache: Cache, service: (string, string) -> ServiceOutcome, cacheDurationMinutes: int,
                   from: string, to: string)
    ensures var step := Handle(CacheSettings(TEST_KEY_TEMPLATE, cacheDurationMinutes), cache, service, Some(from), Some(to));
            var key := TestKey(from, to);
            (key in cache ==> step == Step(Ok(cache[key]), cache, false)) &&
            (key !in cache && service(from, to).Computed? && cacheDurationMinutes > 0 ==>
               step == Step(Ok(service(from, to).data), cache[key := service(from, to).data], true)) &&
            (key !in cache && service(from, to).Computed? && cacheDurationMinutes <= 0 ==>
               step == Step(BadRequest(SlidingExpirationMessage(cacheDurationMinutes)), cache, true)) &&
            (key !in cache && service(from, to).Threw? ==>
               step == Step(BadRequest(service(from, to).message), cache, true))
  {
    TestKeyShape(from, to);
  }

  /** A call changes at most the entry under its own key. */
  lemma OnlyOwnKeyChanges(settings: CacheSettings, cache: Cache, service: (string, string) -> ServiceOutcome,
                          from: string, to: string, other: string)
    requires FormatKey(settings.shortestPathCacheKey, from, to) != Some(other)
    ensures var after := Handle(settings, cache, service, Some(from), Some(to)).cache;
            (other in after <==> other in cache) && (other in cache ==> after[other] == cache[other])
  {
  }

  /**
   * Two successive calls with the same names and no expiry in between give the same answer
   * when the first one succeeds, and the second call does not use the service.
   */
  lemma Idempotent(settings: CacheSettings, cache: Cache, service: (string, string) -> ServiceOutcome,
                   from: string, to: string)
    requires Handle(settings, cache, service, Some(from), Some(to)).response.Ok?
    ensures var first := Handle(settings, cache, service, Some(from), Some(to));
            var second := Handle(settings, first.cache, service, Some(from), Some(to));
            second == Step(first.response, first.cache, false)
  {
  }

  // ---------------------------------------------------------------------------------------
  // The cache answers as the service would
  // ---------------------------------------------------------------------------------------

  /**
   * Every entry was stored by a successful call for the names in origin, whose key it is, and
   * the service still returns that data for them.
   */
  ghost predicate CacheSound(cache: Cache, origin: map<string, (string, string)>,
                             service: (string, string) -> ServiceOutcome)
  {
    forall k :: k in cache ==>
      k in origin && NoUnderscore(origin[k].0) &&
      TestKey(origin[k].0, origin[k].1) == k &&
      service(origin[k].0, origin[k].1) == Computed(cache[k])
  }

  /**
   * With the test template and names without '_', a hit on a sound cache gives the answer
   * the service would, a miss gives the miss answer, so with a positive duration the action
   * always answers as the service would; and the cache stays sound.
   */
  lemma CacheTransparent(cache: Cache, origin: map<string, (string, string)>,
                         service: (string, string) -> ServiceOutcome, cacheDurationMinutes: int,
                         from: string, to: string)
    requires CacheSound(cache, origin, service)
    requires NoUnderscore(from)
    ensures var step := Handle(CacheSettings(TEST_KEY_TEMPLATE, cacheDurationMinutes), cache, service, Some(from), Some(to));
            (TestKey(from, to) in cache ==> step.response == Answer(service(from, to))) &&
            (TestKey(from, to) !in cache ==> step.response == MissAnswer(cacheDurationMinutes, service(from, to))) &&
            (cacheDurationMinutes > 0 ==> step.response == Answer(service(from, to))) &&
            CacheSound(step.cache, origin[TestKey(from, to) := (from, to)], service)
  {
    var settings := CacheSettings(TEST_KEY_TEMPLATE, cacheDurationMinutes);
    var key := TestKey(from, to);
    TestKeyShape(from, to);
    var step := Handle(settings, cache, service, Some(from), Some(to));
    if key in cache {
      KeyInjective(origin[key].0, origin[key].1, from, to);
      assert step.cache == cache;
    }
    var origin' := origin[key := (from, to)];
    forall k | k in step.cache
      ensures k in origin' && NoUnderscore(origin'[k].0) &&
              TestKey(origin'[k].0, origin'[k].1) == k &&
              service(origin'[k].0, origin'[k].1) == Computed(step.cache[k])
    {
      if k == key {
        if key in cache {
          KeyInjective(origin[key].0, origin[key].1, from, to);
        }
      }
    }
  }

  /**
   * Without the '_' restriction a cache entry can answer for another pair: once the data for
   * (a + "_", b), say ("A_", "B"), is stored, which needs a positive duration, a request for
   * (a, "_" + b), say ("A", "_B"), is answered with it, whatever the service says for that pair.
   */
  lemma CollidingNamesShareEntry(cache: Cache, service: (string, string) -> ServiceOutcome,
                                 cacheDurationMinutes: int, a: string, b: string, data: ShortestPathData)
    requires service(a + "_", b) == Computed(data)
    requires TestKey(a + "_", b) !in cache
    ensures var settings := CacheSettings(TEST_KEY_TEMPLATE, cacheDurationMinutes);
            var first := Handle(settings, cache, service, Some(a + "_"), Some(b));
            (cacheDurationMinutes > 0 ==>
               Handle(settings, first.cache, service, Some(a), Some("_" + b)) == Step(Ok(data), first.cache, false)) &&
            (cacheDurationMinutes <= 0 ==> first.cache == cache)
  {
    KeyCollision(a, b);
    TestKeyShape(a + "_", b);
    TestKeyShape(a, "_" + b);
  }

  // ---------------------------------------------------------------------------------------
  // The controller object
  // ---------------------------------------------------------------------------------------

  class ShortestPathsController {
    const shortestPathService: (string, string) -> ServiceOutcome
    const cacheSettings: CacheSettings
    /** The memory cache the controller shares; the entries it holds. */
    var cache: Cache
    /** The (from, to) pairs the service was asked for, in order. */
    ghost var serviceCalls: seq<(string, string)>

    constructor (shortestPathService: (string, string) -> ServiceOutcome, cacheSettings: CacheSettings, cache: Cache)
      ensures this.shortestPathService == shortestPathService && this.cacheSettings == cacheSettings
      ensures this.cache == cache && serviceCalls == []
    {
      this.shortestPathService := shortestPathService;
      this.cacheSettings := cacheSettings;
      this.cache := cache;
      serviceCalls := [];
    }

    /** GET api/ShortestPaths/{from}/{to}. */
    method GetShortestPath(from: Option<string>, to: Option<string>) returns (result: Response)
      modifies this
      ensures var step := Handle(cacheSettings, old(cache), shortestPathService, from, to);
              result == step.response && cache == step.cache &&
              serviceCalls == old(serviceCalls) + (if step.serviceCalled then [(from.value, to.value)] else [])
      ensures from.None? || to.None? ==>
                result == BadRequest(INVALID_INPUT_MESSAGE) && cache == old(cache) && serviceCalls == old(serviceCalls)
      ensures from.Some? && to.Some? && FormatKey(cacheSettings.shortestPathCacheKey, from.value, to.value).Some? ==>
                var key := FormatKey(cacheSettings.shortestPathCacheKey, from.value, to.value).value;
                var outcome := shortestPathService(from.value, to.value);
                (key in old(cache) ==>
                   result == Ok(old(cache)[key]) && cache == old(cache) && serviceCalls == old(serviceCalls)) &&
                (key !in old(cache) && outcome.Computed? && cacheSettings.cacheDurationMinutes > 0 ==>
                   result == Ok(outcome.data) && cache == old(cache)[key := outcome.data]) &&
                (key !in old(cache) && outcome.Computed? && cacheSettings.cacheDurationMinutes <= 0 ==>
                   result == BadRequest(SlidingExpirationMessage(cacheSettings.cacheDurationMinutes)) && cache == old(cache)) &&
                (key !in old(cache) && outcome.Threw? ==>
                   result == BadRequest(outcome.message) && cache == old(cache)) &&
                (key !in old(cache) ==> serviceCalls == old(serviceCalls) + [(from.value, to.value)])
    {
      if from.None? || to.None? {
        return BadRequest(INVALID_INPUT_MESSAGE);
      }
      var cacheKey := FormatKey(cacheSettings.shortestPathCacheKey, from.value, to.value);
      if cacheKey.None? {
        return FormatFailed;
      }
      if cacheKey.value in cache {
        return Ok(cache[cacheKey.value]);
      }
      serviceCalls := serviceCalls + [(from.value, to.value)];
      var outcome := shortestPathService(from.value, to.value);
      match outcome {
        case Computed(shortestPathData) =>
          if cacheSettings.cacheDurationMinutes <= 0 {
            result := BadRequest(SlidingExpirationMessage(cacheSettings.cacheDurationMinutes));
          } else {
            cache := cache[cacheKey.value := shortestPathData];
            result := Ok(shortestPathData);
          }
        case Threw(message) =>
          result := BadRequest(message);
      }
    }
  }
}
